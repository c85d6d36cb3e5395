/** The taxonomy sheet and the preparation of its term bags: a raw
    `;`-delimited cell becomes an ordered list of trimmed, lower-cased,
    non-empty terms. */
module Taxonomy {
  import opened Wrappers
  import opened PyText

  /** One spreadsheet cell; `None` is a blank cell (NaN). */
  type Cell = Option<string>

  /** The report language, which picks the term column. */
  datatype Language = Pt | En

  /** One row of the taxonomy sheet as read: the six descriptive columns and
      the two raw term columns ("Bag de termos" and "Bag of terms"). */
  datatype TaxonomyRow = TaxonomyRow(
    dimension: Cell,
    factor: Cell,
    subfactor1: Cell,
    subfactor2: Cell,
    recommendation1: Cell,
    recommendation2: Cell,
    termsPt: Cell,
    termsEn: Cell)

  /** A taxonomy row once the chosen term column has been prepared. */
  datatype Entry = Entry(
    dimension: Cell,
    factor: Cell,
    subfactor1: Cell,
    subfactor2: Cell,
    recommendation1: Cell,
    recommendation2: Cell,
    terms: seq<string>)

  /** The name of the term column used for a language. */
  function ColumnName(lang: Language): (name: string)
    ensures name == "Bag de termos" <==> lang == Pt
    ensures name == "Bag de termos" || name == "Bag of terms"
  {
    match lang
    case Pt => "Bag de termos"
    case En => "Bag of terms"
  }

  /** The raw term cell of the column that `ColumnName(lang)` names. */
  function BagCell(row: TaxonomyRow, lang: Language): Cell {
    match lang
    case Pt => row.termsPt
    case En => row.termsEn
  }

  /** `fillna("")` followed by `str(x)`. */
  function CellText(c: Cell): string {
    match c
    case None => ""
    case Some(s) => s
  }

  /** What every prepared term satisfies. */
  predicate IsTerm(t: string) {
    t != [] && Trimmed(t) && IsLowerCase(t)
  }

  /** One fragment of the split cell: nothing when it is blank, otherwise its
      stripped, lower-cased text. */
  function CleanFragment(f: string): (terms: seq<string>)
    ensures terms == [] <==> AllSpace(f)
  {
    var s := Strip(f);
    if s != [] then [Lower(s)] else []
  }

  /** Keeps the fragments that are not blank, stripped and lower-cased, in
      their order. */
  function CleanFragments(fs: seq<string>): seq<string>
  {
    if fs == [] then [] else CleanFragment(fs[0]) + CleanFragments(fs[1..])
  }

  /** The term list of one raw cell. */
  function TermBag(c: Cell): seq<string>
  {
    CleanFragments(Split(CellText(c), ';'))
  }

  /** Every prepared term is non-empty, has no whitespace at either end and
      has no upper-case letter. */
  lemma TermBagTerms(c: Cell)
    ensures forall t :: t in TermBag(c) ==> IsTerm(t)
  {
    CleanFragmentsTerms(Split(CellText(c), ';'));
  }

  lemma {:induction false} CleanFragmentsTerms(fs: seq<string>)
    ensures |CleanFragments(fs)| <= |fs|
    ensures forall t :: t in CleanFragments(fs) ==> IsTerm(t)
  {
    if fs != [] {
      CleanFragmentsTerms(fs[1..]);
      var s := Strip(fs[0]);
      if s != [] {
        assert Trimmed(Lower(s));
      }
    }
  }

  lemma {:induction false} CleanFragmentsAppend(fs: seq<string>, gs: seq<string>)
    ensures CleanFragments(fs + gs) == CleanFragments(fs) + CleanFragments(gs)
  {
    if fs != [] {
      assert (fs + gs)[0] == fs[0];
      assert (fs + gs)[1..] == fs[1..] + gs;
      CleanFragmentsAppend(fs[1..], gs);
      calc {
        CleanFragments(fs + gs);
        CleanFragment(fs[0]) + CleanFragments(fs[1..] + gs);
        CleanFragment(fs[0]) + (CleanFragments(fs[1..]) + CleanFragments(gs));
      }
    } else {
      assert fs + gs == gs;
    }
  }

  /** A cell without `;` gives its stripped, lower-cased text, or nothing when
      it is blank. */
  lemma TermBagOneFragment(a: string)
    requires ';' !in a
    ensures TermBag(Some(a)) == if AllSpace(a) then [] else [Lower(Strip(a))]
  {
    SplitWithoutSeparator(a, ';');
    assert CleanFragments([a]) == CleanFragment(a) + CleanFragments([]);
  }

  /** The terms of `a;b` are those of `a` followed by those of `b`: order and
      duplicates are kept. */
  lemma TermBagAtSeparator(a: string, b: string)
    ensures TermBag(Some(a + ";" + b)) == TermBag(Some(a)) + TermBag(Some(b))
  {
    assert a + ";" + b == a + [';'] + b;
    SplitAtSeparator(a, b, ';');
    CleanFragmentsAppend(Split(a, ';'), Split(b, ';'));
  }

  /** Every character is `;` or whitespace. */
  predicate OnlySeparators(s: string) {
    forall i :: 0 <= i < |s| ==> s[i] == ';' || IsSpace(s[i])
  }

  lemma OnlySeparatorsAtSeparator(a: string, b: string)
    ensures OnlySeparators(a + ";" + b) <==> OnlySeparators(a) && OnlySeparators(b)
  {
    var s := a + ";" + b;
    if OnlySeparators(a) && OnlySeparators(b) {
      forall i | 0 <= i < |s| ensures s[i] == ';' || IsSpace(s[i]) {
        if i < |a| { assert s[i] == a[i]; } else if i > |a| { assert s[i] == b[i - |a| - 1]; }
      }
    }
    if OnlySeparators(s) {
      forall i | 0 <= i < |a| ensures a[i] == ';' || IsSpace(a[i]) { assert a[i] == s[i]; }
      forall i | 0 <= i < |b| ensures b[i] == ';' || IsSpace(b[i]) { assert b[i] == s[i + |a| + 1]; }
    }
  }

  /** A cell yields no terms exactly when it is missing, blank, or made only of
      `;` and whitespace. */
  lemma {:induction false} TermBagEmptyIff(c: Cell)
    ensures TermBag(c) == [] <==> OnlySeparators(CellText(c))
    decreases |CellText(c)|
  {
    var s := CellText(c);
    if ';' in s {
      var k :| 0 <= k < |s| && s[k] == ';';
      var a, b := s[..k], s[k + 1..];
      assert s == a + ";" + b;
      assert c == Some(s);
      TermBagEmptyIff(Some(a));
      TermBagEmptyIff(Some(b));
      TermBagAtSeparator(a, b);
      OnlySeparatorsAtSeparator(a, b);
    } else {
      TermBagOneFragment(s);
    }
  }

  /** Two pieces joined at a `;` yield no terms exactly when neither does. */
  lemma TermBagEmptyAtSeparator(a: string, b: string)
    ensures TermBag(Some(a + ";" + b)) == [] <==> TermBag(Some(a)) == [] && TermBag(Some(b)) == []
  {
    TermBagAtSeparator(a, b);
  }

  /** A cell with mixed case, padding, a duplicate and a trailing `;`. */
  lemma TermBagExample()
    ensures TermBag(Some("Queda; queda ;Falta de EPI;")) == ["queda", "queda", "falta de epi"]
  {
    assert "Queda; queda ;Falta de EPI;" == "Queda" + ";" + " queda ;Falta de EPI;";
    QuedaFragment();
    ExampleTail();
    JoinedBag("Queda; queda ;Falta de EPI;", "Queda", " queda ;Falta de EPI;", ["queda"], ["queda", "falta de epi"]);
  }

  lemma ExampleTail()
    ensures TermBag(Some(" queda ;Falta de EPI;")) == ["queda", "falta de epi"]
  {
    assert " queda ;Falta de EPI;" == " queda " + ";" + "Falta de EPI;";
    PaddedQuedaFragment();
    ExampleLastFragments();
    JoinedBag(" queda ;Falta de EPI;", " queda ", "Falta de EPI;", ["queda"], ["falta de epi"]);
  }

  lemma ExampleLastFragments()
    ensures TermBag(Some("Falta de EPI;")) == ["falta de epi"]
  {
    assert "Falta de EPI;" == "Falta de EPI" + ";" + "";
    EpiFragment();
    TermBagEmptyIff(Some(""));
    JoinedBag("Falta de EPI;", "Falta de EPI", "", ["falta de epi"], []);
  }

  /** The bag of a cell joined at a `;` from two cells with known bags. */
  lemma JoinedBag(s: string, a: string, b: string, ta: seq<string>, tb: seq<string>)
    requires s == a + ";" + b
    requires TermBag(Some(a)) == ta && TermBag(Some(b)) == tb
    ensures TermBag(Some(s)) == ta + tb
  {
    TermBagAtSeparator(a, b);
  }

  /** A `;`-free fragment `p + m + q`, with whitespace runs `p` and `q` around
      a trimmed `m`, gives the single term `Lower(m)`. */
  lemma FragmentTerm(p: string, m: string, q: string, t: string)
    requires ';' !in p + m + q
    requires AllSpace(p) && AllSpace(q) && m != [] && Trimmed(m) && Lower(m) == t
    ensures TermBag(Some(p + m + q)) == [t]
  {
    StripPadded(p, m, q);
    assert (p + m + q)[|p|] == m[0];
    TermBagOneFragment(p + m + q);
  }

  lemma QuedaFragment()
    ensures TermBag(Some("Queda")) == ["queda"]
  {
    assert Lower("Queda") == "queda";
    TrimmedFragmentTerm("Queda", "queda");
  }

  /** A `;`-free trimmed fragment gives the single term `Lower(m)`. */
  lemma TrimmedFragmentTerm(m: string, t: string)
    requires ';' !in m && m != [] && Trimmed(m) && Lower(m) == t
    ensures TermBag(Some(m)) == [t]
  {
    assert [] + m + [] == m;
    FragmentTerm([], m, [], t);
  }

  lemma PaddedQuedaFragment()
    ensures TermBag(Some(" queda ")) == ["queda"]
  {
    assert " " + "queda" + " " == " queda ";
    assert Lower("queda") == "queda";
    FragmentTerm(" ", "queda", " ", "queda");
  }

  lemma EpiFragment()
    ensures TermBag(Some("Falta de EPI")) == ["falta de epi"]
  {
    assert Lower("Falta de EPI") == "falta de epi";
    TrimmedFragmentTerm("Falta de EPI", "falta de epi");
  }

  /** The entry `detectar_fatores` sees for a row once the column of `lang`
      has been prepared. */
  function Prepare(row: TaxonomyRow, lang: Language): Entry
  {
    Entry(row.dimension, row.factor, row.subfactor1, row.subfactor2,
          row.recommendation1, row.recommendation2, TermBag(BagCell(row, lang)))
  }

  /** The whole sheet, prepared for `lang`. */
  function PrepareTable(rows: seq<TaxonomyRow>, lang: Language): (table: seq<Entry>)
    ensures |table| == |rows|
    ensures forall i :: 0 <= i < |rows| ==> table[i].terms == TermBag(BagCell(rows[i], lang))
    ensures forall i :: 0 <= i < |rows| ==>
              table[i].dimension == rows[i].dimension && table[i].factor == rows[i].factor
              && table[i].subfactor1 == rows[i].subfactor1 && table[i].subfactor2 == rows[i].subfactor2
              && table[i].recommendation1 == rows[i].recommendation1
              && table[i].recommendation2 == rows[i].recommendation2
  {
    seq(|rows|, i requires 0 <= i < |rows| => Prepare(rows[i], lang))
  }
}
