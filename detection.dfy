/** Factor detection: every term of every taxonomy entry is looked up in the
    report text, exactly or, failing that, with the fuzzy scorer. */
module Detection {
  import opened Wrappers
  import opened PyText
  import opened Taxonomy
  import opened LanguageSelection

  /** The fuzzy scorer (`partial_ratio`), from (term, text) to a score. */
  type Scorer = (string, string) -> real

  /** A fuzzy score must exceed this to count as a detection. */
  const Threshold: real := 85.0

  /** The score of an exact (substring) match. */
  const ExactScore: real := 100.0

  /** One detection: the descriptive columns of the entry, the term found and
      its similarity score. */
  datatype Finding = Finding(
    dimension: Cell,
    factor: Cell,
    subfactor1: Cell,
    subfactor2: Cell,
    recommendation1: Cell,
    recommendation2: Cell,
    term: string,
    similarity: real)

  /** Whether `term` is reported for `text`. */
  predicate Matched(term: string, text: string, ratio: Scorer) {
    IsSubstring(term, text) || ratio(term, text) > Threshold
  }

  /** The score recorded for a reported term. */
  function Score(term: string, text: string, ratio: Scorer): real {
    if IsSubstring(term, text) then ExactScore else ratio(term, text)
  }

  /** The finding for `term` of entry `e`, with score `score`. */
  function FindingFor(e: Entry, term: string, score: real): (f: Finding)
    ensures f.term == term && f.similarity == score
    ensures f.dimension == e.dimension && f.factor == e.factor
    ensures f.subfactor1 == e.subfactor1 && f.subfactor2 == e.subfactor2
    ensures f.recommendation1 == e.recommendation1 && f.recommendation2 == e.recommendation2
  {
    Finding(e.dimension, e.factor, e.subfactor1, e.subfactor2,
            e.recommendation1, e.recommendation2, term, score)
  }

  /** The findings one term of one entry contributes: at most one. */
  function TermFindings(text: string, e: Entry, term: string, ratio: Scorer): seq<Finding>
  {
    if Matched(term, text, ratio) then [FindingFor(e, term, Score(term, text, ratio))] else []
  }

  /** One term gives at most one finding: one exactly when the term occurs in
      the text or scores above 85, with score 100 for an occurrence and the
      fuzzy score otherwise. */
  lemma TermFindingsRule(text: string, e: Entry, term: string, ratio: Scorer)
    ensures |TermFindings(text, e, term, ratio)| <= 1
    ensures TermFindings(text, e, term, ratio) != [] <==> IsSubstring(term, text) || ratio(term, text) > 85.0
    ensures IsSubstring(term, text) ==> TermFindings(text, e, term, ratio) == [FindingFor(e, term, 100.0)]
    ensures !IsSubstring(term, text) && ratio(term, text) > 85.0 ==>
              TermFindings(text, e, term, ratio) == [FindingFor(e, term, ratio(term, text))]
  {
  }

  /** The findings of entry `e` for the terms `terms`, in term order. */
  function EntryFindings(text: string, e: Entry, terms: seq<string>, ratio: Scorer): seq<Finding>
  {
    if terms == [] then []
    else EntryFindings(text, e, terms[..|terms| - 1], ratio) + TermFindings(text, e, terms[|terms| - 1], ratio)
  }

  /** The findings of a whole table, in row order then term order. */
  function Detections(text: string, table: seq<Entry>, ratio: Scorer): seq<Finding>
  {
    if table == [] then []
    else
      var e := table[|table| - 1];
      Detections(text, table[..|table| - 1], ratio) + EntryFindings(text, e, e.terms, ratio)
  }

  /** `detectar_fatores`: walks the rows and, within each row, its terms,
      appending a finding for every term that occurs in the text or scores
      above the threshold. */
  method DetectFactors(text: string, table: seq<Entry>, ratio: Scorer) returns (found: seq<Finding>)
    ensures found == Detections(text, table, ratio)
  {
    found := [];
    var i := 0;
    while i < |table|
      invariant 0 <= i <= |table|
      invariant found == Detections(text, table[..i], ratio)
    {
      var e := table[i];
      var j := 0;
      while j < |e.terms|
        invariant 0 <= j <= |e.terms|
        invariant found == Detections(text, table[..i], ratio) + EntryFindings(text, e, e.terms[..j], ratio)
      {
        var term := e.terms[j];
        if IsSubstring(term, text) || ratio(term, text) > Threshold {
          var score := if IsSubstring(term, text) then ExactScore else ratio(term, text);
          found := found + [FindingFor(e, term, score)];
        }
        assert e.terms[..j + 1][..j] == e.terms[..j];
        j := j + 1;
      }
      assert e.terms[..j] == e.terms;
      assert table[..i + 1][..i] == table[..i];
      i := i + 1;
    }
    assert table[..i] == table;
  }

  // ---------------------------------------------------------------------------
  // Order and shape of the result
  // ---------------------------------------------------------------------------

  /** Within an entry, the findings of consecutive term runs follow each other. */
  lemma {:induction false} EntryFindingsAppend(text: string, e: Entry, ts: seq<string>, us: seq<string>, ratio: Scorer)
    ensures EntryFindings(text, e, ts + us, ratio) == EntryFindings(text, e, ts, ratio) + EntryFindings(text, e, us, ratio)
    decreases |us|
  {
    if us == [] {
      assert ts + us == ts;
    } else {
      var n := |us| - 1;
      assert (ts + us)[..|ts + us| - 1] == ts + us[..n];
      EntryFindingsAppend(text, e, ts, us[..n], ratio);
    }
  }

  /** The findings of a table split in two are those of the first part
      followed by those of the second: rows are reported in row order. */
  lemma {:induction false} DetectionsAppend(text: string, a: seq<Entry>, b: seq<Entry>, ratio: Scorer)
    ensures Detections(text, a + b, ratio) == Detections(text, a, ratio) + Detections(text, b, ratio)
    decreases |b|
  {
    if b == [] {
      assert a + b == a;
    } else {
      var n := |b| - 1;
      assert b == b[..n] + [b[n]];
      assert a + b == (a + b[..n]) + [b[n]];
      DetectionsAppend(text, a, b[..n], ratio);
      DetectionsSnoc(text, a + b[..n], b[n], ratio);
      DetectionsSnoc(text, b[..n], b[n], ratio);
    }
  }

  /** Adding a row at the end adds its findings at the end. */
  lemma DetectionsSnoc(text: string, table: seq<Entry>, e: Entry, ratio: Scorer)
    ensures Detections(text, table + [e], ratio) == Detections(text, table, ratio) + EntryFindings(text, e, e.terms, ratio)
  {
    assert (table + [e])[..|table|] == table;
  }

  /** The findings of a single entry, term by term. */
  lemma DetectionsOfOneEntry(text: string, e: Entry, ratio: Scorer)
    ensures Detections(text, [e], ratio) == EntryFindings(text, e, e.terms, ratio)
  {
    assert [e][..0] == [];
  }

  /** A row whose bag is empty contributes nothing, wherever it stands. */
  lemma EmptyBagContributesNothing(text: string, a: seq<Entry>, e: Entry, b: seq<Entry>, ratio: Scorer)
    requires e.terms == []
    ensures Detections(text, a + [e] + b, ratio) == Detections(text, a + b, ratio)
  {
    DetectionsAppend(text, a + [e], b, ratio);
    DetectionsAppend(text, a, [e], ratio);
    DetectionsAppend(text, a, b, ratio);
    DetectionsOfOneEntry(text, e, ratio);
  }

  // ---------------------------------------------------------------------------
  // Which findings are reported
  // ---------------------------------------------------------------------------

  /** `f` is the finding that term `t` of entry `e` yields. */
  predicate Yields(text: string, e: Entry, t: string, ratio: Scorer, f: Finding) {
    Matched(t, text, ratio) && f == FindingFor(e, t, Score(t, text, ratio))
  }

  lemma {:induction false} EntryFindingsMembership(text: string, e: Entry, terms: seq<string>, ratio: Scorer, f: Finding)
    ensures f in EntryFindings(text, e, terms, ratio) <==> exists t :: t in terms && Yields(text, e, t, ratio, f)
  {
    if terms != [] {
      var n := |terms| - 1;
      EntryFindingsMembership(text, e, terms[..n], ratio, f);
      assert terms == terms[..n] + [terms[n]];
      assert f in TermFindings(text, e, terms[n], ratio) <==> Yields(text, e, terms[n], ratio, f);
      if exists t :: t in terms && Yields(text, e, t, ratio, f) {
        var t :| t in terms && Yields(text, e, t, ratio, f);
        if t != terms[n] {
          assert t in terms[..n];
        }
      }
    }
  }

  /** A finding is reported exactly when some term of some entry yields it:
      the emission rule, read in both directions. */
  lemma {:induction false} DetectionsMembership(text: string, table: seq<Entry>, ratio: Scorer, f: Finding)
    ensures f in Detections(text, table, ratio) <==>
            exists e, t :: e in table && t in e.terms && Yields(text, e, t, ratio, f)
  {
    if table != [] {
      var n := |table| - 1;
      var e := table[n];
      DetectionsMembership(text, table[..n], ratio, f);
      EntryFindingsMembership(text, e, e.terms, ratio, f);
      assert table == table[..n] + [e];
      if exists e', t :: e' in table && t in e'.terms && Yields(text, e', t, ratio, f) {
        var e', t :| e' in table && t in e'.terms && Yields(text, e', t, ratio, f);
        if e' != e {
          assert e' in table[..n];
        }
      }
    }
  }

  /** A term that occurs in the text is reported with score 100. */
  lemma ExactTermReported(text: string, table: seq<Entry>, ratio: Scorer, e: Entry, t: string)
    requires e in table && t in e.terms && IsSubstring(t, text)
    ensures FindingFor(e, t, 100.0) in Detections(text, table, ratio)
  {
    DetectionsMembership(text, table, ratio, FindingFor(e, t, 100.0));
  }

  /** A term that does not occur and scores at most 85 is never reported,
      for any entry. */
  lemma UnmatchedTermNotReported(text: string, table: seq<Entry>, ratio: Scorer, t: string)
    requires !IsSubstring(t, text) && ratio(t, text) <= 85.0
    ensures forall f :: f in Detections(text, table, ratio) ==> f.term != t
  {
    forall f | f in Detections(text, table, ratio) ensures f.term != t {
      DetectionsMembership(text, table, ratio, f);
    }
  }

  /** Every finding comes from an entry of the table, copies its columns, names
      one of its terms, and scores 100 for an exact match or the fuzzy score,
      above 85, otherwise. */
  lemma FindingsAreSound(text: string, table: seq<Entry>, ratio: Scorer, f: Finding)
    requires f in Detections(text, table, ratio)
    ensures exists e :: e in table && f.term in e.terms
              && f.dimension == e.dimension && f.factor == e.factor
              && f.subfactor1 == e.subfactor1 && f.subfactor2 == e.subfactor2
              && f.recommendation1 == e.recommendation1 && f.recommendation2 == e.recommendation2
    ensures IsSubstring(f.term, text) ==> f.similarity == 100.0
    ensures !IsSubstring(f.term, text) ==> f.similarity == ratio(f.term, text) && f.similarity > 85.0
  {
    DetectionsMembership(text, table, ratio, f);
  }

  /** With a scorer bounded by 100, every score lies in (85, 100]. */
  lemma ScoresInRange(text: string, table: seq<Entry>, ratio: Scorer)
    requires forall t, s :: 0.0 <= ratio(t, s) <= 100.0
    ensures forall f :: f in Detections(text, table, ratio) ==> 85.0 < f.similarity <= 100.0
  {
    forall f | f in Detections(text, table, ratio) ensures 85.0 < f.similarity <= 100.0 {
      FindingsAreSound(text, table, ratio, f);
    }
  }

  /** Terms keep their accents while the text is transliterated, so an
      accented term is only ever reported through the fuzzy scorer. */
  lemma AccentedTermOnlyFuzzy(text: string, table: seq<Entry>, ratio: Scorer, f: Finding)
    requires IsAscii(text) && f in Detections(text, table, ratio) && !IsAscii(f.term)
    ensures f.similarity == ratio(f.term, text) && f.similarity > 85.0
  {
    NonAsciiNotInAscii(f.term, text);
    FindingsAreSound(text, table, ratio, f);
  }

  // ---------------------------------------------------------------------------
  // Counts
  // ---------------------------------------------------------------------------

  /** The number of terms of an entry run. */
  function TermCount(table: seq<Entry>): nat {
    if table == [] then 0 else TermCount(table[..|table| - 1]) + |table[|table| - 1].terms|
  }

  lemma {:induction false} EntryFindingsCount(text: string, e: Entry, terms: seq<string>, ratio: Scorer)
    ensures |EntryFindings(text, e, terms, ratio)| <= |terms|
    ensures (forall t :: t in terms ==> Matched(t, text, ratio)) ==> |EntryFindings(text, e, terms, ratio)| == |terms|
  {
    if terms != [] {
      var n := |terms| - 1;
      EntryFindingsCount(text, e, terms[..n], ratio);
      assert forall t :: t in terms[..n] ==> t in terms;
    }
  }

  /** At most one finding per (row, term occurrence); exactly one each when
      every term matches. */
  lemma {:induction false} DetectionsCount(text: string, table: seq<Entry>, ratio: Scorer)
    ensures |Detections(text, table, ratio)| <= TermCount(table)
    ensures (forall e, t :: e in table && t in e.terms ==> Matched(t, text, ratio)) ==>
              |Detections(text, table, ratio)| == TermCount(table)
  {
    if table != [] {
      var n := |table| - 1;
      DetectionsCount(text, table[..n], ratio);
      EntryFindingsCount(text, table[n], table[n].terms, ratio);
      assert forall e :: e in table[..n] ==> e in table;
    }
  }

  // ---------------------------------------------------------------------------
  // The main flow
  // ---------------------------------------------------------------------------

  /** Picks the language of the report, prepares the term column of that
      language and runs the detection over the prepared sheet. */
  method Analyse(text: string, sheet: seq<TaxonomyRow>, ratio: Scorer) returns (lang: Language, found: seq<Finding>)
    ensures lang == DetectLanguage(text)
    ensures found == Detections(text, PrepareTable(sheet, lang), ratio)
    ensures lang == Pt <==> exists m :: m in Markers && IsSubstring(m, text)
    ensures forall f :: f in found <==>
              exists row, t :: row in sheet && t in Prepare(row, lang).terms
                && Yields(text, Prepare(row, lang), t, ratio, f)
  {
    lang := DetectLanguage(text);
    var table := PrepareTable(sheet, lang);
    found := DetectFactors(text, table, ratio);
    forall f ensures f in found <==>
        exists row, t :: row in sheet && t in Prepare(row, lang).terms && Yields(text, Prepare(row, lang), t, ratio, f)
    {
      PreparedMembership(text, sheet, lang, ratio, f);
    }
  }

  /** The emission rule restated on the raw sheet rows. */
  lemma PreparedMembership(text: string, sheet: seq<TaxonomyRow>, lang: Language, ratio: Scorer, f: Finding)
    ensures f in Detections(text, PrepareTable(sheet, lang), ratio) <==>
            exists row, t :: row in sheet && t in Prepare(row, lang).terms && Yields(text, Prepare(row, lang), t, ratio, f)
  {
    var table := PrepareTable(sheet, lang);
    DetectionsMembership(text, table, ratio, f);
    if f in Detections(text, table, ratio) {
      var e, t :| e in table && t in e.terms && Yields(text, e, t, ratio, f);
      var row := PreparedFrom(sheet, lang, e);
      assert row in sheet && t in Prepare(row, lang).terms && Yields(text, Prepare(row, lang), t, ratio, f);
    }
    if exists row, t :: row in sheet && t in Prepare(row, lang).terms && Yields(text, Prepare(row, lang), t, ratio, f) {
      var row, t :| row in sheet && t in Prepare(row, lang).terms && Yields(text, Prepare(row, lang), t, ratio, f);
      PreparedIn(sheet, lang, row);
    }
  }

  lemma PreparedIn(sheet: seq<TaxonomyRow>, lang: Language, row: TaxonomyRow)
    requires row in sheet
    ensures Prepare(row, lang) in PrepareTable(sheet, lang)
  {
    var k :| 0 <= k < |sheet| && sheet[k] == row;
    assert PrepareTable(sheet, lang)[k] == Prepare(row, lang);
  }

  lemma PreparedFrom(sheet: seq<TaxonomyRow>, lang: Language, e: Entry) returns (row: TaxonomyRow)
    requires e in PrepareTable(sheet, lang)
    ensures row in sheet && e == Prepare(row, lang)
  {
    var table := PrepareTable(sheet, lang);
    var k :| 0 <= k < |table| && table[k] == e;
    row := sheet[k];
  }

  // ---------------------------------------------------------------------------
  // A one-row end-to-end scenario
  // ---------------------------------------------------------------------------

  /** One entry with the terms "fadiga" and "hora extra", and the report
      "o trabalhador relatou fadiga apos turno": only "fadiga" is reported,
      with score 100, whatever the scorer says of "hora extra" up to 85. */
  lemma FatigueScenario(ratio: Scorer)
    requires ratio("hora extra", "o trabalhador relatou fadiga apos turno") <= 85.0
    ensures
      var e := Entry(Some("Fadiga"), Some("Horas extras"), None, None, None, None, ["fadiga", "hora extra"]);
      Detections("o trabalhador relatou fadiga apos turno", [e], ratio) == [FindingFor(e, "fadiga", 100.0)]
  {
    var text := "o trabalhador relatou fadiga apos turno";
    var e := Entry(Some("Fadiga"), Some("Horas extras"), None, None, None, None, ["fadiga", "hora extra"]);
    assert OccursAt("fadiga", text, 22);
    assert "hora extra"[6] !in text;
    NotSubstringByChar("hora extra", text, 6);
    DetectionsOfOneEntry(text, e, ratio);
    assert e.terms[..1][..0] == [];
  }
}
