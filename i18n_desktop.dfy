// The desktop renderer's i18n store: locale detection, the persisted
// locale, and `t` with English and key fallbacks and `{name}` parameters.
module I18nDesktop {
  import opened Wrappers
  import opened Strings

  datatype Locale = En | Zh

  const STORAGE_KEY: string := "ai-note-locale"

  function LocaleName(l: Locale): string
  {
    match l
    case En => "en"
    case Zh => "zh"
  }

  /** detectLocale: a saved 'en' or 'zh' wins; otherwise Chinese exactly for a 'zh' browser language. */
  function DetectLocale(saved: Option<string>, language: string): (l: Locale)
    ensures saved == Some("en") ==> l == En
    ensures saved == Some("zh") ==> l == Zh
    ensures saved != Some("en") && saved != Some("zh") ==> (l == Zh <==> StartsWith(language, "zh"))
  {
    if saved == Some("en") then En
    else if saved == Some("zh") then Zh
    else if StartsWith(language, "zh") then Zh
    else En
  }

  /** A persisted locale is what the next detection finds, whatever the browser language. */
  lemma DetectSavedLocale(l: Locale, language: string)
    ensures DetectLocale(Some(LocaleName(l)), language) == l
  {
    match l
    case En =>
    case Zh => assert LocaleName(l) != "en";
  }

  function Placeholder(name: string): string
  {
    "{" + name + "}"
  }

  /** The parameters substituted in order, each into the first `{name}` still present. */
  function Substitute(text: string, params: seq<(string, string)>): string
  {
    if params == [] then text
    else
      var last := params[|params| - 1];
      ReplaceFirst(Substitute(text, params[..|params| - 1]), Placeholder(last.0), last.1)
  }

  /** A text without any of the parameters' placeholders comes back unchanged. */
  lemma {:induction false} SubstituteWithoutPlaceholders(text: string, params: seq<(string, string)>)
    requires forall i :: 0 <= i < |params| ==> IndexOf(text, Placeholder(params[i].0), 0).None?
    ensures Substitute(text, params) == text
  {
    if params != [] {
      SubstituteWithoutPlaceholders(text, params[..|params| - 1]);
    }
  }

  /** A parameter replaces its placeholder where it first occurs. */
  lemma SubstituteOne(before: string, name: string, value: string, after: string)
    requires '{' !in before
    ensures Substitute(before + Placeholder(name) + after, [(name, value)]) == before + value + after
  {
    var p := Placeholder(name);
    var s := before + p + after;
    IndexOfFirstPlaced(before, p, after);
    assert [(name, value)][..0] == [];
    assert s[..|before|] == before;
    assert s[|before| + |p|..] == after;
  }

  /** Only the first occurrence is replaced: a repeated placeholder keeps its second copy. */
  lemma SubstituteFirstOnly(name: string, value: string)
    ensures Substitute(Placeholder(name) + Placeholder(name), [(name, value)]) == value + Placeholder(name)
  {
    var params := [(name, value)];
    assert params[..0] == [];
    ReplaceFirstRepeated(Placeholder(name), value);
  }

  lemma ReplaceFirstRepeated<T>(p: seq<T>, v: seq<T>)
    requires p != []
    ensures ReplaceFirst(p + p, p, v) == v + p
  {
    assert OccursAt(p + p, p, 0);
    assert (p + p)[|p|..] == p;
  }

  class I18nStore {
    var locale: Locale
    /** localStorage. */
    var storage: map<string, string>
    const en: map<string, string>
    const zh: map<string, string>

    /** The store starts in the detected locale. */
    constructor (en: map<string, string>, zh: map<string, string>, storage: map<string, string>, language: string)
      ensures locale == DetectLocale(if STORAGE_KEY in storage then Some(storage[STORAGE_KEY]) else None, language)
      ensures this.storage == storage && this.en == en && this.zh == zh
    {
      this.en := en;
      this.zh := zh;
      this.storage := storage;
      locale := DetectLocale(if STORAGE_KEY in storage then Some(storage[STORAGE_KEY]) else None, language);
    }

    /** setLocale: switches and persists the locale. */
    method SetLocale(l: Locale)
      modifies this
      ensures locale == l && storage == old(storage)[STORAGE_KEY := LocaleName(l)]
    {
      storage := storage[STORAGE_KEY := LocaleName(l)];
      locale := l;
    }

    function Table(l: Locale): map<string, string>
      reads this
    {
      match l
      case En => en
      case Zh => zh
    }

    /** The untranslated text: the current table, then English, then the key itself. */
    function Text(key: string): (r: string)
      reads this
      ensures key in Table(locale) ==> r == Table(locale)[key]
      ensures key !in Table(locale) && key in en ==> r == en[key]
      ensures key !in Table(locale) && key !in en ==> r == key
    {
      if key in Table(locale) then Table(locale)[key]
      else if key in en then en[key]
      else key
    }

    /** `t`: the text with each parameter substituted in turn; without parameters, the text itself. */
    method T(key: string, params: Option<seq<(string, string)>>) returns (text: string)
      ensures params.None? || params.value == [] ==> text == Text(key)
      ensures params.Some? ==> text == Substitute(Text(key), params.value)
    {
      text := Text(key);
      if params.Some? {
        var ps := params.value;
        var i := 0;
        while i < |ps|
          invariant 0 <= i <= |ps|
          invariant text == Substitute(Text(key), ps[..i])
        {
          assert ps[..i + 1][..i] == ps[..i];
          text := ReplaceFirst(text, Placeholder(ps[i].0), ps[i].1);
          i := i + 1;
        }
        assert ps[..i] == ps;
      }
    }
  }
}
