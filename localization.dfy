/**
 * Interface languages and translation lookup. A language is chosen by its two-letter code;
 * every code other than "en" and "zh" selects Russian, while the default language is
 * English. The translator holds the table of the current language and falls back to the
 * key itself for a key the table lacks.
 */
module Localization {

  datatype Language = Russian | English | Chinese

  /** `Language::from_code`. */
  function FromCode(code: string): (l: Language)
    ensures l == English <==> code == "en"
    ensures l == Chinese <==> code == "zh"
    ensures l == Russian <==> code != "en" && code != "zh"
  {
    match code
    case "en" => English
    case "zh" => Chinese
    case _ => Russian
  }

  /** `Language::to_code`: a two-letter code that selects the language again. */
  function ToCode(l: Language): (code: string)
    ensures |code| == 2
    ensures FromCode(code) == l
  {
    match l
    case Russian => "ru"
    case English => "en"
    case Chinese => "zh"
  }

  /** The three codes are exactly the ones `to_code` gives, so reading one and writing it back is the identity. */
  lemma ToCodeOfFromCode(code: string)
    requires code == "ru" || code == "en" || code == "zh"
    ensures ToCode(FromCode(code)) == code
  {
  }

  /** `Language::default`: English, which is not what an unknown code selects. */
  function Default(): (l: Language)
    ensures l == FromCode("en")
    ensures forall code :: code != "en" && code != "zh" ==> FromCode(code) != l
  {
    English
  }

  /** `Language::display_name`: each language's name in that language. */
  function DisplayName(l: Language): (name: string)
    ensures |name| > 0
  {
    match l
    case Russian => "Русский"
    case English => "English"
    case Chinese => "中文"
  }

  /** Different languages are shown under different names. */
  lemma DisplayNameInjective(l1: Language, l2: Language)
    ensures DisplayName(l1) == DisplayName(l2) <==> l1 == l2
  {
    if l1 != l2 {
      assert DisplayName(l1)[0] != DisplayName(l2)[0];
    }
  }

  /** `Language::all`: every language once, in selection-screen order. */
  function All(): (ls: seq<Language>)
    ensures |ls| == 3
    ensures forall l :: l in ls
    ensures forall i, j :: 0 <= i < j < |ls| ==> ls[i] != ls[j]
  {
    var ls := [Russian, English, Chinese];
    EveryLanguageListed(ls);
    ls
  }

  lemma EveryLanguageListed(ls: seq<Language>)
    requires ls == [Russian, English, Chinese]
    ensures forall l :: l in ls
  {
    forall l | true ensures l in ls {
      match l
      case Russian => assert ls[0] == l;
      case English => assert ls[1] == l;
      case Chinese => assert ls[2] == l;
    }
  }

  /**
   * The row the language selection screen starts on for the configured code: "ru" is 0,
   * "zh" is 2, and anything else is 1.
   */
  function SelectionIndexOf(code: string): (i: nat)
    ensures i < |All()|
  {
    match code
    case "ru" => 0
    case "zh" => 2
    case _ => 1
  }

  /** For the three known codes the selection screen starts on the language in use. */
  lemma SelectionIndexAgrees(code: string)
    requires code == "ru" || code == "en" || code == "zh"
    ensures All()[SelectionIndexOf(code)] == FromCode(code)
  {
  }

  /**
   * For any other code the interface is in Russian but the selection screen starts on
   * English, the default language.
   */
  lemma SelectionIndexDisagrees(code: string)
    requires code != "ru" && code != "en" && code != "zh"
    ensures All()[SelectionIndexOf(code)] == Default()
    ensures FromCode(code) == Russian && FromCode(code) != Default()
  {
  }

  /** The translation table of a language (three of its keys). */
  function TableFor(l: Language): (table: map<string, string>)
    ensures "master_password_title" in table && "main_passwords" in table && "settings_title" in table
  {
    match l
    case Russian =>
      map["master_password_title" := "RPM - Rust Password Manager",
          "main_passwords" := "Passwords",
          "settings_title" := "Настройки"]
    case English =>
      map["master_password_title" := "RPM - Rust Password Manager",
          "main_passwords" := "Passwords",
          "settings_title" := "Settings"]
    case Chinese =>
      map["master_password_title" := "RPM - Rust Password Manager",
          "main_passwords" := "密码",
          "settings_title" := "设置"]
  }

  /** A lookup that falls back to the key: `get(key).unwrap_or(key)`. */
  function Lookup(table: map<string, string>, key: string): (r: string)
    ensures key in table ==> r == table[key]
    ensures key !in table ==> r == key
  {
    if key in table then table[key] else key
  }

  /** The three tables translate the settings title differently. */
  lemma TablesDiffer(l1: Language, l2: Language)
    requires l1 != l2
    ensures Lookup(TableFor(l1), "settings_title") != Lookup(TableFor(l2), "settings_title")
  {
    assert Lookup(TableFor(l1), "settings_title")[0] != Lookup(TableFor(l2), "settings_title")[0];
  }

  /** `I18n`: the current language and the table loaded for it. */
  class I18n {
    var translations: map<string, string>
    var language: Language

    /** The table is always the one of the current language. */
    ghost predicate Valid()
      reads this
    {
      translations == TableFor(language)
    }

    /** `I18n::new`: the table of the given language is loaded. */
    constructor(language: Language)
      ensures this.language == language && Valid()
    {
      this.language := language;
      translations := map[];
      new;
      LoadTranslations();
    }

    /** `set_language`: switch language, clear the table and load the new one. */
    method SetLanguage(language: Language)
      modifies this
      ensures this.language == language && Valid()
    {
      this.language := language;
      translations := map[];
      LoadTranslations();
    }

    /** `get_language`. */
    function GetLanguage(): (l: Language)
      reads this
      ensures Valid() ==> translations == TableFor(l)
    {
      language
    }

    /** `load_translations`: the table of the current language replaces the old one. */
    method LoadTranslations()
      modifies this
      ensures language == old(language) && Valid()
    {
      match language
      case Russian => translations := TableFor(Russian);
      case English => translations := TableFor(English);
      case Chinese => translations := TableFor(Chinese);
    }

    /** `t` (and `ts`, the same lookup as a borrowed string): the translation, or the key itself. */
    function T(key: string): (r: string)
      reads this
      ensures Valid() ==> r == Lookup(TableFor(language), key)
      ensures key !in translations ==> r == key
    {
      Lookup(translations, key)
    }
  }

  /** After a language switch, lookups use the new language's table and fall back to the key. */
  method SwitchAndTranslate(i18n: I18n, l: Language, key: string) returns (r: string)
    modifies i18n
    ensures i18n.GetLanguage() == l
    ensures r == Lookup(TableFor(l), key)
  {
    i18n.SetLanguage(l);
    r := i18n.T(key);
  }
}
