/** The two summaries of the findings: the frequency of each dimension
    (`value_counts`) and the frequency of each (dimension, factor,
    recommendation 1, recommendation 2) group (`groupby(...).size()`). Both
    leave out findings whose key holds a blank cell, as pandas does by
    default. */
module Summary {
  import opened Wrappers
  import opened Detection

  /** One line of a summary: a key and how many findings have it. */
  datatype Group<K> = Group(key: K, frequency: nat)

  /** The frequency recorded for `k`, or 0 when no line has it. */
  function Lookup<K(==)>(groups: seq<Group<K>>, k: K): nat {
    if groups == [] then 0
    else if groups[0].key == k then groups[0].frequency
    else Lookup(groups[1..], k)
  }

  predicate HasKey<K(==)>(groups: seq<Group<K>>, k: K) {
    exists i :: 0 <= i < |groups| && groups[i].key == k
  }

  predicate DistinctKeys<K(==)>(groups: seq<Group<K>>) {
    forall i, j :: 0 <= i < j < |groups| ==> groups[i].key != groups[j].key
  }

  predicate Positive<K>(groups: seq<Group<K>>) {
    forall i :: 0 <= i < |groups| ==> groups[i].frequency > 0
  }

  /** The sum of the frequencies. */
  function Total<K>(groups: seq<Group<K>>): nat {
    if groups == [] then 0 else groups[0].frequency + Total(groups[1..])
  }

  /** Counts one more occurrence of `k`. */
  function Bump<K(==, !new)>(groups: seq<Group<K>>, k: K): (r: seq<Group<K>>)
    requires DistinctKeys(groups) && Positive(groups)
    ensures DistinctKeys(r) && Positive(r)
    ensures forall x :: Lookup(r, x) == Lookup(groups, x) + (if x == k then 1 else 0)
    ensures forall x :: HasKey(r, x) <==> HasKey(groups, x) || x == k
    ensures Total(r) == Total(groups) + 1
  {
    if groups == [] then [Group(k, 1)]
    else if groups[0].key == k then
      var r := [Group(k, groups[0].frequency + 1)] + groups[1..];
      assert |r| == |groups| && forall i :: 0 <= i < |r| ==> r[i].key == groups[i].key;
      assert r[1..] == groups[1..];
      r
    else
      var rest := Bump(groups[1..], k);
      assert forall x :: HasKey(groups, x) <==> groups[0].key == x || HasKey(groups[1..], x) by {
        forall x | HasKey(groups, x) && groups[0].key != x ensures HasKey(groups[1..], x) {
          var i :| 0 <= i < |groups| && groups[i].key == x;
          assert groups[1..][i - 1].key == x;
        }
      }
      var r := [groups[0]] + rest;
      assert forall x :: HasKey(r, x) <==> groups[0].key == x || HasKey(rest, x) by {
        forall x | HasKey(r, x) && groups[0].key != x ensures HasKey(rest, x) {
          var i :| 0 <= i < |r| && r[i].key == x;
          assert rest[i - 1].key == x;
        }
        assert r[0].key == groups[0].key;
        forall x | HasKey(rest, x) ensures HasKey(r, x) {
          var i :| 0 <= i < |rest| && rest[i].key == x;
          assert r[i + 1].key == x;
        }
      }
      assert r[1..] == rest;
      forall i | 0 <= i < |groups[1..]| ensures groups[1..][i].key != groups[0].key {
        assert groups[1..][i] == groups[i + 1];
      }
      assert !HasKey(groups[1..], groups[0].key);
      assert !HasKey(rest, groups[0].key);
      forall i, j | 0 <= i < j < |r| ensures r[i].key != r[j].key {
        if i == 0 {
          assert rest[j - 1].key == r[j].key;
        } else {
          assert rest[i - 1].key != rest[j - 1].key;
        }
      }
      r
  }

  /** Counts the keys, in order of first occurrence. */
  function Tally<K(==, !new)>(keys: seq<K>): (r: seq<Group<K>>)
    ensures DistinctKeys(r) && Positive(r)
    ensures forall k :: Lookup(r, k) == multiset(keys)[k]
    ensures forall k :: HasKey(r, k) <==> k in keys
    ensures Total(r) == |keys|
  {
    if keys == [] then []
    else
      var n := |keys| - 1;
      assert keys == keys[..n] + [keys[n]];
      Bump(Tally(keys[..n]), keys[n])
  }

  /** The keys that are present, in order. */
  function Present<K(==, !new)>(keys: seq<Option<K>>): (r: seq<K>)
    ensures forall k :: multiset(r)[k] == multiset(keys)[Some(k)]
    ensures |r| == |keys| - multiset(keys)[None]
  {
    if keys == [] then []
    else
      assert keys == [keys[0]] + keys[1..];
      match keys[0]
      case None => Present(keys[1..])
      case Some(k) => [k] + Present(keys[1..])
  }

  /** A summary over optional keys: blank keys are dropped, the rest counted. */
  function Summarise<K(==, !new)>(keys: seq<Option<K>>): (r: seq<Group<K>>)
    ensures DistinctKeys(r) && Positive(r)
    ensures forall k :: Lookup(r, k) == multiset(keys)[Some(k)]
    ensures Total(r) == |keys| - multiset(keys)[None]
  {
    Tally(Present(keys))
  }

  /** The dimension cell of each finding. */
  function Dimensions(found: seq<Finding>): seq<Option<string>> {
    seq(|found|, i requires 0 <= i < |found| => found[i].dimension)
  }

  /** `resultados["Dimensão"].value_counts()`. */
  function DimensionSummary(found: seq<Finding>): (r: seq<Group<string>>)
    ensures DistinctKeys(r) && Positive(r)
    ensures forall d :: Lookup(r, d) == multiset(Dimensions(found))[Some(d)]
    ensures Total(r) == |found| - multiset(Dimensions(found))[None]
  {
    Summarise(Dimensions(found))
  }

  /** The key of the recommendation summary. */
  datatype RecommendationKey = RecommendationKey(dimension: string, factor: string, recommendation1: string, recommendation2: string)

  /** The recommendation key of a finding, or `None` when one of its four
      cells is blank. */
  function RecommendationKeyOf(f: Finding): Option<RecommendationKey> {
    if f.dimension.Some? && f.factor.Some? && f.recommendation1.Some? && f.recommendation2.Some? then
      Some(RecommendationKey(f.dimension.value, f.factor.value, f.recommendation1.value, f.recommendation2.value))
    else None
  }

  function RecommendationKeys(found: seq<Finding>): seq<Option<RecommendationKey>> {
    seq(|found|, i requires 0 <= i < |found| => RecommendationKeyOf(found[i]))
  }

  /** `resultados.groupby([...]).size()`: the "Frequência" of each group. */
  function RecommendationSummary(found: seq<Finding>): (r: seq<Group<RecommendationKey>>)
    ensures DistinctKeys(r) && Positive(r)
    ensures forall k :: Lookup(r, k) == multiset(RecommendationKeys(found))[Some(k)]
    ensures Total(r) == |found| - multiset(RecommendationKeys(found))[None]
  {
    Summarise(RecommendationKeys(found))
  }

  // ---------------------------------------------------------------------------
  // Lemmas
  // ---------------------------------------------------------------------------

  /** A summary is empty exactly when it counts nothing. */
  lemma EmptyIffTotalZero<K>(groups: seq<Group<K>>)
    requires Positive(groups)
    ensures groups == [] <==> Total(groups) == 0
  {
  }

  /** With no blank dimension, the dimension frequencies add up to the number
      of findings; no findings give an empty summary. */
  lemma DimensionCountsAddUp(found: seq<Finding>)
    requires forall f :: f in found ==> f.dimension.Some?
    ensures Total(DimensionSummary(found)) == |found|
    ensures found == [] <==> DimensionSummary(found) == []
  {
    assert None !in Dimensions(found);
    EmptyIffTotalZero(DimensionSummary(found));
  }

  /** With no blank key cell, the group frequencies add up to the number of
      findings; no findings give an empty summary. */
  lemma RecommendationCountsAddUp(found: seq<Finding>)
    requires forall f :: f in found ==> RecommendationKeyOf(f).Some?
    ensures Total(RecommendationSummary(found)) == |found|
    ensures found == [] <==> RecommendationSummary(found) == []
  {
    assert None !in RecommendationKeys(found);
    EmptyIffTotalZero(RecommendationSummary(found));
  }

  /** A dimension is listed exactly when some finding carries it. */
  lemma DimensionListedIff(found: seq<Finding>, d: string)
    ensures HasKey(DimensionSummary(found), d) <==> exists f :: f in found && f.dimension == Some(d)
  {
    var r := DimensionSummary(found);
    LookupPositiveIffHasKey(r, d);
    if exists f :: f in found && f.dimension == Some(d) {
      var f :| f in found && f.dimension == Some(d);
      var i :| 0 <= i < |found| && found[i] == f;
      assert Dimensions(found)[i] == Some(d);
    }
    if Some(d) in multiset(Dimensions(found)) {
      var i :| 0 <= i < |found| && Dimensions(found)[i] == Some(d);
      assert found[i] in found;
    }
  }

  /** In a positive summary a key has a line exactly when its frequency is
      non-zero. */
  lemma {:induction false} LookupPositiveIffHasKey<K>(groups: seq<Group<K>>, k: K)
    requires Positive(groups)
    ensures HasKey(groups, k) <==> Lookup(groups, k) > 0
  {
    if groups != [] {
      LookupPositiveIffHasKey(groups[1..], k);
      if HasKey(groups, k) && groups[0].key != k {
        var i :| 0 <= i < |groups| && groups[i].key == k;
        assert groups[1..][i - 1].key == k;
      }
      if HasKey(groups[1..], k) {
        var i :| 0 <= i < |groups[1..]| && groups[1..][i].key == k;
        assert groups[i + 1].key == k;
      }
    }
  }
}
