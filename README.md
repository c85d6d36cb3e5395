# Accident-report factor detection — a Dafny model

`app_acidentes.py` is a small Streamlit application that reads an accident
report, decides whether it is written in Portuguese or English, turns the
"bag of terms" column of a taxonomy spreadsheet into lists of clean terms,
reports every taxonomy row whose terms occur in the report (exactly, or with a
fuzzy `partial_ratio` score above 85) and summarises the findings by dimension
and by recommendation.

This project models that classification engine and proves what it promises:

- `PyText` — the Python string operations the engine relies on: `str.split`,
  `str.strip` (with Python's whitespace set), `str.lower`, and the substring
  test `a in b`.
- `Taxonomy` — a spreadsheet row (`TaxonomyRow`, blank cells as `None`, the
  pandas NaN), the choice of the term column, and the preparation of a term
  bag: `fillna("")`, split at `;`, strip, drop blanks, lower-case.
- `LanguageSelection` — the marker-word test that picks the language.
- `Detection` — `detectar_fatores` as a method with the two nested loops of
  the source, proved equal to a functional specification `Detections`, plus
  the properties of that specification (membership rule, soundness, exact
  matches always reported, scores, counts, order) and the main flow that
  chains language, preparation and detection.
- `Summary` — `value_counts()` on the dimension and `groupby(...).size()` on
  the recommendation key, as frequency tables whose counts are exactly the
  multiplicities of the keys.

The fuzzy scorer `fuzz.partial_ratio` is a parameter (`Detection.Scorer`);
nothing is assumed about it except where a lemma says so: `Detection.ScoresInRange`
assumes scores in [0, 100], and `Detection.FatigueScenario` assumes that one
particular term scores at most 85 against its report.

## Model

| member | source | states |
|---|---|---|
| PyText.Lower | app_acidentes.py:84 | `.lower()` keeps the length, leaves no upper-case letter, changes only upper-case letters and keeps whitespace at every position |
| PyText.LowerFixesLowerCase | app_acidentes.py:84 | lowering text that is already lower case leaves it unchanged |
| PyText.Strip | app_acidentes.py:84 | `.strip()` gives text with no whitespace at either end, and gives "" exactly when the text is all whitespace |
| PyText.StripIsPadded | app_acidentes.py:84 | the stripped text is a contiguous piece of the original with only whitespace removed around it |
| PyText.StripPadded | app_acidentes.py:84 | whitespace around a trimmed, non-empty word is removed and the word itself kept |
| PyText.Split | app_acidentes.py:84 | `.split(";")` yields at least one fragment, no fragment contains `;`, and joining the fragments with `;` gives back the text |
| PyText.SplitAtSeparator | app_acidentes.py:84 | splitting `a + ";" + b` gives the fragments of `a` followed by those of `b` |
| PyText.SplitJoin | app_acidentes.py:84 | splitting the `;`-join of `;`-free fragments gives back exactly those fragments |
| PyText.NonAsciiNotInAscii | app_acidentes.py:52 | a word with a non-ASCII character never occurs in ASCII text |
| Taxonomy.ColumnName | app_acidentes.py:79 | the term column is "Bag de termos" exactly for Portuguese, otherwise "Bag of terms" |
| Taxonomy.CleanFragment | app_acidentes.py:84 | one fragment yields no term exactly when it is all whitespace |
| Taxonomy.TermBagTerms | app_acidentes.py:83-85 | every prepared term is non-empty, has no surrounding whitespace and is lower case |
| Taxonomy.CleanFragmentsTerms | app_acidentes.py:84 | the list comprehension yields at most one term per fragment, each a clean term |
| Taxonomy.TermBagOneFragment | app_acidentes.py:84 | a cell without `;` gives its stripped, lowered text, or nothing when it is blank |
| Taxonomy.TermBagAtSeparator | app_acidentes.py:84 | the bag of `a;b` is the bag of `a` followed by the bag of `b` |
| Taxonomy.TermBagEmptyIff | app_acidentes.py:83-84 | the bag is empty exactly when the cell is blank (NaN) or holds only `;` and whitespace |
| Taxonomy.TermBagEmptyAtSeparator | app_acidentes.py:84 | `a;b` gives no terms exactly when neither `a` nor `b` gives any |
| Taxonomy.TermBagExample | app_acidentes.py:83-85 | "Queda; queda ;Falta de EPI;" becomes ["queda", "queda", "falta de epi"]: duplicates kept, blanks dropped |
| Taxonomy.PrepareTable | app_acidentes.py:83-85 | the prepared table has one entry per spreadsheet row, in row order: entry i holds the term bag of row i's term column and row i's six other cells unchanged |
| LanguageSelection.AnyOccurs | app_acidentes.py:78 | the `any(...)` test holds exactly when some marker is a substring of the text |
| LanguageSelection.DetectLanguage | app_acidentes.py:78 | the language is Portuguese exactly when one of the five markers occurs in the report, English otherwise |
| LanguageSelection.TermColumn | app_acidentes.py:78-79 | "Bag de termos" is used exactly when a marker occurs, "Bag of terms" exactly when none does |
| LanguageSelection.AsciiTextIgnoresCedillaMarker | app_acidentes.py:78 | on transliterated text "segurança" can never decide: Portuguese exactly when one of the other four markers occurs |
| LanguageSelection.TransliteratedSegurancaIsEnglish | app_acidentes.py:78 | the report "seguranca" is classified as English |
| LanguageSelection.FalhaIsPortuguese | app_acidentes.py:78 | a report containing "falha" is classified as Portuguese |
| Detection.DetectFactors | app_acidentes.py:47-63 | the nested loops return exactly `Detections` of the text and table |
| Detection.EntryFindingsAppend | app_acidentes.py:51-61 | the findings of a row's terms split along any split of its term list |
| Detection.DetectionsAppend | app_acidentes.py:49-62 | findings of a concatenated table are the findings of each part in order (rows in sheet order) |
| Detection.DetectionsOfOneEntry | app_acidentes.py:49-62 | a one-row table yields exactly that row's term findings |
| Detection.EmptyBagContributesNothing | app_acidentes.py:50-51 | a row with an empty term bag does not change the findings |
| Detection.EntryFindingsMembership | app_acidentes.py:51-61 | a finding comes from a row's terms exactly when one of them matches and yields it |
| Detection.DetectionsMembership | app_acidentes.py:49-62 | a finding is reported exactly when some row has a term that matches and yields it |
| Detection.ExactTermReported | app_acidentes.py:52-61 | a term that occurs verbatim is reported with score 100 |
| Detection.UnmatchedTermNotReported | app_acidentes.py:52 | a term that is neither a substring nor scores above 85 is never reported |
| Detection.FindingsAreSound | app_acidentes.py:52-61 | every finding's term is in its row's bag and matched; its score is 100 for a substring, else the fuzzy score above 85 |
| Detection.ScoresInRange | app_acidentes.py:52-61 | with a scorer in [0, 100], every reported score is above 85 and at most 100 |
| Detection.AccentedTermOnlyFuzzy | app_acidentes.py:52-61 | a term with a non-ASCII letter never matches transliterated text exactly, so it is reported only through a fuzzy score above 85 |
| Detection.EntryFindingsCount | app_acidentes.py:51-53 | a row yields at most one finding per term, and exactly one per term when every term matches |
| Detection.DetectionsCount | app_acidentes.py:49-53 | the number of findings is at most the total number of terms, and equal to it when every term matches |
| Detection.Analyse | app_acidentes.py:77-88 | the language is the one the markers select, and the findings are exactly `Detections` over the prepared sheet, so order and multiplicity follow the rows and terms; as a corollary, a finding is returned exactly when some spreadsheet row's prepared term matches and yields it |
| Detection.PreparedMembership | app_acidentes.py:83-88 | the emission rule stated over the raw spreadsheet rows after preparation |
| Detection.FatigueScenario | app_acidentes.py:47-63 | the report "o trabalhador relatou fadiga apos turno" against a row with "fadiga" and "hora extra" yields only "fadiga", score 100 |
| Summary.Bump | app_acidentes.py:101 | counting one more key raises its frequency by one, keeps keys distinct and frequencies positive |
| Summary.Tally | app_acidentes.py:101 | each key's frequency is its number of occurrences, keys are listed once, and the total is the number of keys |
| Summary.Present | app_acidentes.py:101 | blank (NaN) keys are dropped and every other key is kept as often as it occurs |
| Summary.Summarise | app_acidentes.py:101-112 | the frequency of a key is its number of occurrences among non-blank keys; blank keys are not counted |
| Summary.DimensionSummary | app_acidentes.py:101-102 | `value_counts()` lists each present dimension once, with its number of findings |
| Summary.RecommendationSummary | app_acidentes.py:110-112 | `groupby(...).size()` lists each complete (dimension, factor, recommendation 1, recommendation 2) key once, with its number of findings |
| Summary.EmptyIffTotalZero | app_acidentes.py:101-112 | a summary is empty exactly when it counts nothing |
| Summary.DimensionCountsAddUp | app_acidentes.py:101-102 | with no blank dimension, frequencies add up to the number of findings, and no findings give an empty summary |
| Summary.RecommendationCountsAddUp | app_acidentes.py:110-112 | with no blank key cell, group sizes add up to the number of findings |
| Summary.DimensionListedIff | app_acidentes.py:101-102 | a dimension is listed exactly when some finding carries it |
| Summary.LookupPositiveIffHasKey | app_acidentes.py:101-112 | in a summary a key has a line exactly when its frequency is positive |

## Left out

- The Streamlit page, the upload widget, the messages and the tab selection (lines 11-23, 80, 89-99, 103, 113-115): user interface only.
- The histogram of lines 105-107: a plot of the same dimension counts that `Summary.DimensionSummary` states.
- `extract_text` (lines 26-44): file reading, PDF and DOCX parsing and `unidecode` are I/O and foreign libraries; the report text is an input of the model.
- Loading the spreadsheet (lines 15-16, 71-75): the rows are an input; a missing file is not modelled.
- `fuzz.partial_ratio`: a foreign algorithm, taken as the parameter `Detection.Scorer`.
- The spreadsheet is assumed to have all eight columns: a missing term column (a `KeyError` at line 83) and the defaults of `row.get` never arise.
- Non-text cells: a numeric cell read by pandas is taken as the text `str()` would give; that text is an input.
- PyText.Lower: only ASCII and Latin-1 upper-case letters are lowered; other Unicode case mappings (and those that change length) are not modelled.
- Detection.Finding: the score is a real number; floating-point rounding of the scorer is not modelled.
- Summary.DimensionSummary: lines appear in first-seen order; the sort by decreasing frequency of `value_counts()` is not modelled.
- Summary.RecommendationSummary: groups appear in first-seen order; the sort by key of `groupby` is not modelled.
- Summary.DimensionSummary: follows pandas' default of dropping blank keys, so frequencies add up to the number of findings only when no key cell is blank (`Summary.DimensionCountsAddUp`).
- The marker "segurança" carries a cedilla while the report text is transliterated to ASCII, so it can never match; the model keeps the marker as written and proves the consequence (`LanguageSelection.AsciiTextIgnoresCedillaMarker`).
