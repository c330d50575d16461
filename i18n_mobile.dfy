// The mobile i18n module: the current locale and `t`, which walks the
// '.'-separated key through the nested translation table.
module I18nMobile {
  import opened Wrappers
  import opened Strings
  import opened Json

  datatype Locale = Zh | En

  /**
   * The value a walk along `keys` reaches, each step `value[k]` into an
   * object, a string or an array; None once a step is null or undefined.
   */
  function Walk(value: Option<Json>, keys: seq<string>): Option<Json>
    decreases |keys|
  {
    if keys == [] then value
    else if value.None? || value.value.Null? then None
    else Walk(Index(value, keys[0]), keys[1..])
  }

  /** The translation of `key` against a table: the string reached, else the key itself. */
  function Translate(table: Json, key: string): (r: string)
    ensures r != key ==> Walk(Some(table), Split(key, '.')) == Some(Str(r))
    ensures forall v :: Walk(Some(table), Split(key, '.')) == Some(v) && v.Str? ==> r == v.s
  {
    var reached := Walk(Some(table), Split(key, '.'));
    if reached.Some? && reached.value.Str? then reached.value.s else key
  }

  /** A table nesting a string under the key's segments translates the key to that string. */
  lemma {:induction false} WalkNest(keys: seq<string>, leaf: Json)
    ensures Walk(Some(Nest(keys, leaf)), keys) == Some(leaf)
  {
    if keys != [] {
      WalkNest(keys[1..], leaf);
    }
  }

  lemma TranslateNested(key: string, text: string)
    ensures Translate(Nest(Split(key, '.'), Str(text)), key) == text
  {
    WalkNest(Split(key, '.'), Str(text));
  }

  /** One more numeric segment past a nested string reads that string's character. */
  lemma WalkIntoString(keys: seq<string>, text: string, n: nat)
    requires n < |text|
    ensures Walk(Some(Nest(keys, Str(text))), keys + [NatToString(n)]) == Some(Str([text[n]]))
  {
    WalkAppend(Some(Nest(keys, Str(text))), keys, [NatToString(n)]);
    WalkNest(keys, Str(text));
    IndexString(text, n);
    assert [NatToString(n)][1..] == [];
  }

  /** Walking a concatenation walks one part after the other. */
  lemma {:induction false} WalkAppend(value: Option<Json>, a: seq<string>, b: seq<string>)
    ensures Walk(value, a + b) == Walk(Walk(value, a), b)
    decreases |a|
  {
    if a == [] {
      assert a + b == b;
    } else if value.None? || value.value.Null? {
      WalkUndefined(b);
    } else {
      assert (a + b)[1..] == a[1..] + b;
      WalkAppend(Index(value, a[0]), a[1..], b);
    }
  }

  lemma WalkUndefined(keys: seq<string>)
    ensures Walk(None, keys) == None
  {
  }

  /**
   * `t("common.save.0")` over a table holding U+4FDD U+5B58 under
   * common.save gives the one-character string U+4FDD.
   */
  lemma TranslateIndexesString()
    ensures Translate(Obj(map["common" := Obj(map["save" := Str("\U{4FDD}\U{5B58}")])]), "common.save.0") == "\U{4FDD}"
  {
    var text := "\U{4FDD}\U{5B58}";
    var table := Obj(map["common" := Obj(map["save" := Str(text)])]);
    var keys := ["common", "save"];
    assert Nest(keys, Str(text)) == table by {
      assert keys[1..] == ["save"] && keys[1..][1..] == [];
    }
    SplitCommonSave();
    assert keys + [NatToString(0)] == Split("common.save.0", '.') by {
      assert NatToString(0) == "0";
    }
    WalkIntoString(keys, text, 0);
    assert [text[0]] == "\U{4FDD}";
  }

  lemma SplitCommonSave()
    ensures Split("common.save.0", '.') == ["common", "save", "0"]
  {
    var parts := ["common", "save", "0"];
    assert Join(parts, '.') == "common.save.0" by {
      assert parts[1..] == ["save", "0"] && parts[1..][1..] == ["0"];
    }
    assert forall k :: 0 <= k < |parts| ==> '.' !in parts[k];
    SplitJoin(parts, '.');
  }

  class I18n {
    var currentLocale: Locale
    const zh: Json
    const en: Json

    constructor (zh: Json, en: Json)
      ensures currentLocale == Zh && this.zh == zh && this.en == en
    {
      this.zh := zh;
      this.en := en;
      currentLocale := Zh;
    }

    method SetLocale(l: Locale)
      modifies this
      ensures currentLocale == l
    {
      currentLocale := l;
    }

    /** getLocale returns what the last setLocale set. */
    function GetLocale(): (l: Locale)
      reads this
      ensures l == currentLocale
    {
      currentLocale
    }

    function Table(): Json
      reads this
    {
      if currentLocale == Zh then zh else en
    }

    /** `t`: the segment walk as a loop, returning the key as soon as a step is null or undefined. */
    method T(key: string) returns (text: string)
      ensures text == Translate(Table(), key)
    {
      var keys := Split(key, '.');
      var value := Some(Table());
      var i := 0;
      while i < |keys|
        invariant 0 <= i <= |keys|
        invariant Walk(value, keys[i..]) == Walk(Some(Table()), keys)
      {
        if value.None? || value.value.Null? {
          assert Walk(value, keys[i..]) == None;
          return key;
        }
        assert keys[i..][1..] == keys[i + 1..];
        value := Index(value, keys[i]);
        i := i + 1;
      }
      assert keys[i..] == [];
      if value.Some? && value.value.Str? {
        return value.value.s;
      }
      return key;
    }
  }
}
