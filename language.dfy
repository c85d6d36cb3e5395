/** Language selection: a report is Portuguese when one of five marker words
    occurs in its (already normalised) text, English otherwise. */
module LanguageSelection {
  import opened PyText
  import opened Taxonomy

  /** The marker words, exactly as written: the first keeps its cedilla even
      though the text it is searched in has been transliterated to ASCII. */
  const Markers: seq<string> := ["segurança", "procedimento", "acidente", "falha", "trabalho"]

  /** Python's `any(p in text for p in ms)`. */
  function AnyOccurs(ms: seq<string>, text: string): (b: bool)
    ensures b <==> exists m :: m in ms && IsSubstring(m, text)
  {
    if ms == [] then false
    else IsSubstring(ms[0], text) || AnyOccurs(ms[1..], text)
  }

  /** The report language. */
  function DetectLanguage(text: string): (lang: Language)
    ensures lang == Pt <==> exists m :: m in Markers && IsSubstring(m, text)
  {
    if AnyOccurs(Markers, text) then Pt else En
  }

  /** The term column consulted for a report. */
  function TermColumn(text: string): (name: string)
    ensures name == "Bag de termos" <==> exists m :: m in Markers && IsSubstring(m, text)
    ensures name == "Bag of terms" <==> !exists m :: m in Markers && IsSubstring(m, text)
  {
    ColumnName(DetectLanguage(text))
  }

  /** On transliterated (ASCII) text the cedilla marker can never occur, so only
      the last four markers decide the language. */
  lemma AsciiTextIgnoresCedillaMarker(text: string)
    requires IsAscii(text)
    ensures DetectLanguage(text) == Pt <==> exists m :: m in Markers[1..] && IsSubstring(m, text)
  {
    assert !IsAscii(Markers[0]) by {
      assert Markers[0][7] as int == 0xE7;
    }
    NonAsciiNotInAscii(Markers[0], text);
    assert Markers == [Markers[0]] + Markers[1..];
  }

  /** The transliterated word "seguranca" on its own is classified as English. */
  lemma TransliteratedSegurancaIsEnglish()
    ensures DetectLanguage("seguranca") == En
  {
    var text := "seguranca";
    assert Markers[0][7] !in text;
    NotSubstringByChar(Markers[0], text, 7);
    assert Markers[1][0] !in text;
    NotSubstringByChar(Markers[1], text, 0);
    assert Markers[2][2] !in text;
    NotSubstringByChar(Markers[2], text, 2);
    assert Markers[3][0] !in text;
    NotSubstringByChar(Markers[3], text, 0);
    assert Markers[4][0] !in text;
    NotSubstringByChar(Markers[4], text, 0);
  }

  /** A report mentioning "falha" is classified as Portuguese. */
  lemma FalhaIsPortuguese()
    ensures DetectLanguage("relato de falha no equipamento") == Pt
  {
    assert OccursAt("falha", "relato de falha no equipamento", 10);
    assert Markers[3] == "falha";
  }
}
