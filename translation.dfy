/**
 * The translation function `t`: look a key up in the current language's
 * table, fall back to the key itself, then replace `{name}` placeholders one
 * parameter at a time, first occurrence only.
 */
module Translation {
  import opened Wrappers
  import opened Text

  /** The two languages the table has. */
  datatype Language = En | Sv

  /** One language's key-to-text table. */
  type Dictionary = map<string, string>

  /** `translations`: one dictionary per language. */
  datatype Table = Table(en: Dictionary, sv: Dictionary) {
    function For(lang: Language): Dictionary {
      match lang
      case En => en
      case Sv => sv
    }
  }

  /** A parameter of `t`: the placeholder name and the value put in its place. */
  type Param = (string, string)

  /** The table lookup: a missing key and an empty text both fall back to the key. */
  function Lookup(dict: Dictionary, key: string): (text: string)
    ensures key in dict && dict[key] != "" ==> text == dict[key]
    ensures key !in dict || dict[key] == "" ==> text == key
  {
    if key in dict && dict[key] != "" then dict[key] else key
  }

  /** The placeholder for a parameter: its name in braces. */
  function Placeholder(name: string): (p: string)
    ensures |p| == |name| + 2 && p[0] == '{' && p[|p| - 1] == '}'
    ensures p[1..|p| - 1] == name
  {
    "{" + name + "}"
  }

  /**
   * `text.replace(pattern, value)` with a string pattern: the first
   * occurrence of `pattern` is replaced, the rest of the text is kept.
   */
  function ReplaceFirst(text: string, pattern: string, value: string): (r: string)
    ensures IndexOf(text, pattern).None? ==> r == text
    ensures IndexOf(text, pattern).Some? ==>
              var i := IndexOf(text, pattern).value;
              && |r| == |text| - |pattern| + |value|
              && r[..i] == text[..i]
              && r[i..i + |value|] == value
              && r[i + |value|..] == text[i + |pattern|..]
  {
    match IndexOf(text, pattern)
    case None => text
    case Some(i) => text[..i] + value + text[i + |pattern|..]
  }

  /** Text without `{`: no placeholder can occur in it. */
  predicate BraceFree(s: string) {
    forall k :: 0 <= k < |s| ==> s[k] != '{'
  }

  /** A brace-free text has no placeholder to replace. */
  lemma BraceFreeKeepsText(text: string, name: string, value: string)
    ensures BraceFree(text) ==> ReplaceFirst(text, Placeholder(name), value) == text
  {
    var p := Placeholder(name);
    if BraceFree(text) {
      forall j | 0 <= j && j + |p| <= |text| ensures !OccursAt(text, p, j) {
        assert text[j..j + |p|][0] != p[0];
      }
    }
  }

  /**
   * The `forEach` over the parameters: each one, in order, replaces the first
   * occurrence of its placeholder in the running text. No parameters, or a
   * text without `{`, leave the text as it is.
   */
  function Substitute(text: string, params: seq<Param>): (r: string)
    ensures params == [] ==> r == text
    ensures BraceFree(text) ==> r == text
    decreases |params|
  {
    if params == [] then text
    else
      var last := params[|params| - 1];
      var prev := Substitute(text, params[..|params| - 1]);
      BraceFreeKeepsText(prev, last.0, last.1);
      ReplaceFirst(prev, Placeholder(last.0), last.1)
  }

  /** One more parameter of the list: one more replacement on the running text. */
  lemma SubstituteStep(text: string, params: seq<Param>, i: nat)
    requires i < |params|
    ensures Substitute(text, params[..i + 1])
            == ReplaceFirst(Substitute(text, params[..i]), Placeholder(params[i].0), params[i].1)
  {
    assert params[..i + 1][..i] == params[..i];
  }

  /**
   * `t(key, params)` as a value: lookup, then substitution when parameters
   * are given. A found text without placeholders, or a missing key without
   * braces, comes back whatever the parameters.
   */
  function Translate(dict: Dictionary, key: string, params: Option<seq<Param>>): (r: string)
    ensures key in dict && dict[key] != "" && BraceFree(dict[key]) ==> r == dict[key]
    ensures (key !in dict || dict[key] == "") && BraceFree(key) ==> r == key
  {
    var text := Lookup(dict, key);
    match params
    case None => text
    case Some(ps) => Substitute(text, ps)
  }

  /** Only the first occurrence is replaced: every later occurrence is still there, shifted. */
  lemma ReplaceFirstKeepsLaterOccurrences(text: string, pattern: string, value: string, j: nat)
    requires IndexOf(text, pattern).Some? && IndexOf(text, pattern).value + |pattern| <= j
    requires OccursAt(text, pattern, j)
    ensures OccursAt(ReplaceFirst(text, pattern, value), pattern, j - |pattern| + |value|)
  {
    var i := IndexOf(text, pattern).value;
    var r := ReplaceFirst(text, pattern, value);
    var j' := j - |pattern| + |value|;
    assert r[i + |value|..] == text[i + |pattern|..];
    forall k | j' <= k < j' + |pattern| ensures r[k] == text[k - j' + j] {
      assert r[k] == r[i + |value|..][k - i - |value|];
    }
    assert r[j'..j' + |pattern|] == text[j..j + |pattern|];
  }

  /** A parameter whose placeholder does not occur leaves the text as it was. */
  lemma AbsentPlaceholderKeepsText(text: string, name: string, value: string)
    requires forall j :: !OccursAt(text, Placeholder(name), j)
    ensures ReplaceFirst(text, Placeholder(name), value) == text
  {
  }

  /** Parameters are applied to the running text: a value that brings in `{b}` is filled by a later `b`. */
  lemma ChainedSubstitution()
    ensures Substitute("{a}", [("a", "{b}"), ("b", "x")]) == "x"
  {
    var ps: seq<Param> := [("a", "{b}"), ("b", "x")];
    assert ps[..1] == [("a", "{b}")];
    assert ps[..1][..0] == [];
    assert OccursAt("{a}", "{a}", 0);
    assert ReplaceFirst("{a}", "{a}", "{b}") == "{b}";
    assert OccursAt("{b}", "{b}", 0);
  }

  /** A placeholder behind brace-free text is the first occurrence, and only it is filled. */
  lemma FirstPlaceholderFilled(before: string, name: string, after: string, value: string)
    requires BraceFree(before)
    ensures ReplaceFirst(before + Placeholder(name) + after, Placeholder(name), value) == before + value + after
  {
    var p := Placeholder(name);
    var text := before + p + after;
    assert text[|before|..|before| + |p|] == p;
    assert OccursAt(text, p, |before|);
    forall j | 0 <= j < |before| ensures !OccursAt(text, p, j) {
      assert text[j] == before[j];
      if j + |p| <= |text| {
        assert text[j..j + |p|][0] == text[j];
      }
    }
    assert IndexOf(text, p) == Some(|before|);
    assert text[..|before|] == before;
    assert text[|before| + |p|..] == after;
  }

  /** With a single parameter, `t` fills exactly the first occurrence of its placeholder. */
  lemma SingleParamFillsFirst(before: string, name: string, after: string, value: string)
    requires BraceFree(before)
    ensures Substitute(before + Placeholder(name) + after, [(name, value)]) == before + value + after
  {
    var ps: seq<Param> := [(name, value)];
    assert ps[..0] == [];
    FirstPlaceholderFilled(before, name, after, value);
  }

  /** A placeholder used twice is filled once; the second stays for a later parameter. */
  lemma OnlyFirstOccurrenceFilled(name: string, between: string, value: string)
    requires BraceFree(between)
    ensures Substitute(Placeholder(name) + between + Placeholder(name), [(name, value)])
              == value + between + Placeholder(name)
  {
    var p := Placeholder(name);
    assert p + between + p == [] + p + (between + p);
    SingleParamFillsFirst([], name, between + p, value);
    assert [] + value + (between + p) == value + between + p;
  }

  /** Two entries of the application's table, one with a placeholder. */
  const SampleTable := Table(
    map["results.fromPhotos" := "from {count} photos", "start.getStarted" := "Get Started"],
    map["results.fromPhotos" := "från " + "{count}" + " foton", "start.getStarted" := "Kom igång"])

  /** The Swedish text is used when the language is Swedish, with its placeholder filled. */
  lemma SwedishPhotoCount()
    ensures Translate(SampleTable.For(Sv), "results.fromPhotos", Some([("count", "3")])) == "från " + "3" + " foton"
  {
    var text := Lookup(SampleTable.For(Sv), "results.fromPhotos");
    assert text == "från " + Placeholder("count") + " foton";
    SingleParamFillsFirst("från ", "count", " foton", "3");
  }

  /** Only the current language's table is consulted; a key neither table has comes back as itself. */
  lemma LanguageSelectsTable()
    ensures Translate(SampleTable.For(En), "start.getStarted", None) == "Get Started"
    ensures Translate(SampleTable.For(Sv), "start.getStarted", None) == "Kom igång"
    ensures Translate(SampleTable.For(Sv), "start.title", None) == "start.title"
  {
  }

  /** The language context: the current language and `t`. */
  class LanguageProvider {
    var language: Language
    const translations: Table

    /** The language starts as English. */
    constructor (translations: Table)
      ensures language == En && this.translations == translations
    {
      language := En;
      this.translations := translations;
    }

    method SetLanguage(lang: Language)
      modifies this
      ensures language == lang
    {
      language := lang;
    }

    /**
     * `t(key, params)`: looks the key up in the current language's table
     * only, then runs the substitution loop over the parameters in order.
     */
    method T(key: string, params: Option<seq<Param>>) returns (text: string)
      ensures text == Translate(translations.For(language), key, params)
      ensures params.None? ==> text == Lookup(translations.For(language), key)
    {
      text := Lookup(translations.For(language), key);
      if params.Some? {
        var ps := params.value;
        var i := 0;
        while i < |ps|
          invariant 0 <= i <= |ps|
          invariant text == Substitute(Lookup(translations.For(language), key), ps[..i])
        {
          SubstituteStep(Lookup(translations.For(language), key), ps, i);
          text := ReplaceFirst(text, Placeholder(ps[i].0), ps[i].1);
          i := i + 1;
        }
        assert ps[..i] == ps;
      }
    }
  }
}
