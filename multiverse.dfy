/**
 * multiverse.py: the option list of the `exclude_subgroups` decision, built
 * from every non-empty combination of the race groups, and the decision
 * table `config["dimensions"]`.
 *
 * Facts about the literal strings (group names distinct and hyphen-free,
 * decision names distinct) are proved in many small lemmas, one or two
 * literals each. The split carries no meaning of its own: it only keeps each
 * proof obligation small for the verifier.
 */
module Multiverse {
  import opened Strings
  import opened Combinatorics
  import opened Dimensions

  /**
   * `calculate_combinations(items)`: the combinations of each size
   * 1 .. |items| in turn, each block in itertools order.
   */
  method CalculateCombinations<T(==)>(items: seq<T>) returns (allCombinations: seq<seq<T>>)
    ensures allCombinations == AllCombinations(items)
    ensures |allCombinations| == Pow2(|items|) - 1
    ensures forall k :: 0 <= k < |allCombinations| ==>
      1 <= |allCombinations[k]| <= |items| && IsSubsequence(allCombinations[k], items)
    ensures forall i, j :: 0 <= i < j < |allCombinations| ==>
      |allCombinations[i]| <= |allCombinations[j]|
    ensures Distinct(items) ==> Distinct(allCombinations)
  {
    allCombinations := [];
    var totalItems := |items|;
    for i := 1 to totalItems + 1
      invariant allCombinations == UpTo(items, i - 1)
    {
      allCombinations := allCombinations + Combinations(items, i);
    }
    AllCombinationsCount(items);
    AllCombinationsShape(items);
    if Distinct(items) {
      AllCombinationsDistinct(items);
    }
  }

  /** The race groups; the two longest names are written in pieces. */
  const GroupsRac1p: seq<string> := [
    "White alone", "Asian alone", "Two or More Races", "Some Other Race alone",
    "Black or African American alone", "American Indian alone",
    PacificGroup, TribesGroup, "Alaska Native alone"]

  const PacificGroup := "Native Hawaiian and Other " + "Pacific Islander alone"

  const TribesGroup := "American Indian and Alaska " + "Native tribes specified; or " +
    "American Indian or Alaska " + "Native, not specified and " + "no other races"

  const OptionPrefix: string := "keep-names_race_"

  /**
   * The option token of one combination of groups: the prefix, then the
   * groups joined by '-'. A combination of hyphen-free groups can be read
   * back from its token.
   */
  function JoinedOption(combination: seq<string>): string
  {
    OptionPrefix + Join(combination, '-')
  }

  /** Every token starts with the prefix; after it, the groups can be split back out. */
  lemma JoinedOptionDecodes(combination: seq<string>)
    ensures |JoinedOption(combination)| >= |OptionPrefix|
    ensures JoinedOption(combination)[..|OptionPrefix|] == OptionPrefix
    ensures |combination| > 0 && NoSeparator(combination, '-') ==>
      Split(JoinedOption(combination)[|OptionPrefix|..], '-') == combination
  {
    var token := JoinedOption(combination);
    assert token[|OptionPrefix|..] == Join(combination, '-');
    if |combination| > 0 && NoSeparator(combination, '-') {
      SplitJoin(combination, '-');
    }
  }

  /**
   * `list(map(lambda x: 'keep-names_race_' + '-'.join(x), combinations))`:
   * one token per combination, in order; each token carries the prefix, and
   * a non-empty combination of hyphen-free groups is read back from it.
   */
  function JoinedOptions(combinations: seq<seq<string>>): (tokens: seq<string>)
    ensures |tokens| == |combinations|
    ensures forall k :: 0 <= k < |tokens| ==> tokens[k] == JoinedOption(combinations[k])
    ensures forall k :: 0 <= k < |tokens| ==>
      |tokens[k]| >= |OptionPrefix| && tokens[k][..|OptionPrefix|] == OptionPrefix
    ensures forall k :: 0 <= k < |tokens| && |combinations[k]| > 0 && NoSeparator(combinations[k], '-') ==>
      Split(tokens[k][|OptionPrefix|..], '-') == combinations[k]
  {
    var tokens := seq(|combinations|, k requires 0 <= k < |combinations| => JoinedOption(combinations[k]));
    assert forall k :: 0 <= k < |tokens| ==>
      |tokens[k]| >= |OptionPrefix| && tokens[k][..|OptionPrefix|] == OptionPrefix &&
      (|combinations[k]| > 0 && NoSeparator(combinations[k], '-') ==>
        Split(tokens[k][|OptionPrefix|..], '-') == combinations[k]) by {
      forall k | 0 <= k < |tokens| {
        JoinedOptionDecodes(combinations[k]);
      }
    }
    tokens
  }

  /**
   * Distinct non-empty combinations of hyphen-free groups get distinct
   * tokens.
   */
  lemma JoinedOptionsDistinct(combinations: seq<seq<string>>)
    requires Distinct(combinations)
    requires forall k :: 0 <= k < |combinations| ==>
      |combinations[k]| > 0 && NoSeparator(combinations[k], '-')
    ensures Distinct(JoinedOptions(combinations))
  {
    var tokens := JoinedOptions(combinations);
    forall i, j | 0 <= i < j < |tokens| ensures tokens[i] != tokens[j] {
      JoinedOptionDecodes(combinations[i]);
      JoinedOptionDecodes(combinations[j]);
    }
  }

  /** The nine group names are pairwise distinct and hyphen-free. */
  lemma GroupsRac1pFacts()
    ensures |GroupsRac1p| == 9
    ensures Distinct(GroupsRac1p)
    ensures NoSeparator(GroupsRac1p, '-')
  {
    GroupsRac1pDistinct();
    GroupsRac1pHyphenFree();
  }

  lemma GroupsRac1pDistinct()
    ensures Distinct(GroupsRac1p)
  {
  }

  /**
   * No group name contains '-'. Each literal is checked by a lemma of its
   * own, which keeps every proof obligation small.
   */
  lemma GroupsRac1pHyphenFree()
    ensures NoSeparator(GroupsRac1p, '-')
  {
    ShortGroupsHyphenFree1();
    ShortGroupsHyphenFree2();
    ShortGroupsHyphenFree3();
    ShortGroupsHyphenFree4();
    PiecesHyphenFree1();
    PiecesHyphenFree2();
    PiecesHyphenFree3();
    PiecesHyphenFree4();
    PiecesHyphenFree5();
    PiecesHyphenFree6();
    PiecesHyphenFree7();
  }

  lemma ShortGroupsHyphenFree1()
    ensures '-' !in "White alone" && '-' !in "Asian alone"
  {
  }

  lemma ShortGroupsHyphenFree2()
    ensures '-' !in "Two or More Races" && '-' !in "Some Other Race alone"
  {
  }

  lemma ShortGroupsHyphenFree3()
    ensures '-' !in "Black or African American alone" && '-' !in "American Indian alone"
  {
  }

  lemma ShortGroupsHyphenFree4()
    ensures '-' !in "Alaska Native alone"
  {
  }

  lemma PiecesHyphenFree1()
    ensures '-' !in "Native Hawaiian and Other "
  {
  }

  lemma PiecesHyphenFree2()
    ensures '-' !in "Pacific Islander alone"
  {
  }

  lemma PiecesHyphenFree3()
    ensures '-' !in "American Indian and Alaska "
  {
  }

  lemma PiecesHyphenFree4()
    ensures '-' !in "Native tribes specified; or "
  {
  }

  lemma PiecesHyphenFree5()
    ensures '-' !in "American Indian or Alaska "
  {
  }

  lemma PiecesHyphenFree6()
    ensures '-' !in "Native, not specified and "
  {
  }

  lemma PiecesHyphenFree7()
    ensures '-' !in "no other races"
  {
  }

  /** `combinations_rac1p_joined`, with `calculate_combinations` as its spec. */
  function CombinationsRac1pJoined(): seq<string>
  {
    JoinedOptions(AllCombinations(GroupsRac1p))
  }

  lemma ExcludeSubgroupsCount()
    ensures |CombinationsRac1pJoined()| == 511
  {
    AllCombinationsCount(GroupsRac1p);
    Pow2Nine();
  }

  lemma Pow2Nine()
    ensures Pow2(9) == 512
  {
  }

  /** 511 pairwise distinct options, each carrying the option prefix. */
  lemma ExcludeSubgroupsOptions()
    ensures |CombinationsRac1pJoined()| == 511
    ensures Distinct(CombinationsRac1pJoined())
    ensures forall k :: 0 <= k < |CombinationsRac1pJoined()| ==>
      CombinationsRac1pJoined()[k][..|OptionPrefix|] == OptionPrefix
  {
    var all := AllCombinations(GroupsRac1p);
    GroupsRac1pFacts();
    AllCombinationsCount(GroupsRac1p);
    Pow2Nine();
    AllCombinationsShape(GroupsRac1p);
    AllCombinationsDistinct(GroupsRac1p);
    forall k | 0 <= k < |all| ensures NoSeparator(all[k], '-') {
      SubsequenceElements(all[k], GroupsRac1p);
    }
    JoinedOptionsDistinct(all);
    forall k | 0 <= k < |all| {
      JoinedOptionDecodes(all[k]);
    }
  }

  /** `config["dimensions"]`, in declaration order, commented-out options left out. */
  const ConfigDimensions: seq<Dimension> := [
    PreprocessAge, Scale, EncodeCategorical, StratifySplit, Cutoff, ExcludeFeatures,
    PreprocessIncome, EvalExcludeSubgroups, EvalFairnessGrouping, Model, ExcludeSubgroups,
    EvalOnSubset, FairnessDefinition]

  const PreprocessAge := Dimension("preprocess_age", [Atom("none")])
  const Scale := Dimension("scale", [Atom("do-not-scale")])
  const EncodeCategorical := Dimension("encode_categorical", [Atom("one-hot")])
  const StratifySplit := Dimension("stratify_split", [Atom("none")])
  const Cutoff := Dimension("cutoff", [Compound(["raw_0.5"])])
  const ExcludeFeatures := Dimension("exclude_features", [Atom("none"), Atom("race"), Atom("sex"), Atom("race-sex")])
  const PreprocessIncome :=
    Dimension("preprocess_income", [Atom("none"), Atom("bins_10000"), Atom("quantiles_3"), Atom("quantiles_4")])
  const EvalExcludeSubgroups := Dimension("eval_exclude_subgroups", [Compound(["exclude-in-eval", "keep-in-eval"])])
  const EvalFairnessGrouping := Dimension("eval_fairness_grouping", [Compound(["majority-minority", "race-all"])])
  const Model := Dimension("model", [Atom("logreg"), Atom("rf")])
  const ExcludeSubgroups := Dimension("exclude_subgroups", Atoms(CombinationsRac1pJoined()))
  const EvalOnSubset := Dimension("eval_on_subset", [Compound(["full", "locality-largest-only",
    "locality-most-privileged", "locality-city-sf", "exclude-military", "exclude-non-citizens"])])
  const FairnessDefinition := Dimension("fairness_definition", [Compound(["sensitivity", "precision"])])

  /** The table has unique names, no empty decision and no repeated option. */
  lemma ConfigWellFormed()
    ensures WellFormed(ConfigDimensions)
  {
    ConfigUniqueNames();
    ConfigValidOptions();
  }

  /** The thirteen decision names of the table, in order. */
  const ConfigNames := [
    "preprocess_age", "scale", "encode_categorical", "stratify_split", "cutoff", "exclude_features",
    "preprocess_income", "eval_exclude_subgroups", "eval_fairness_grouping", "model",
    "exclude_subgroups", "eval_on_subset", "fairness_definition"]

  lemma ConfigUniqueNames()
    ensures UniqueNames(ConfigDimensions)
  {
    ConfigNamesListed();
    ConfigNamesDistinct();
  }

  lemma ConfigNamesListed()
    ensures Names(ConfigDimensions) == ConfigNames
  {
  }

  lemma ConfigNamesDistinct()
    ensures Distinct(ConfigNames)
  {
  }

  lemma ConfigValidOptions()
    ensures ValidOptions(ConfigDimensions)
  {
    ExcludeSubgroupsOptions();
    AtomsDistinct(CombinationsRac1pJoined());
    assert OptionsOk(ExcludeFeatures) && OptionsOk(PreprocessIncome) && OptionsOk(Model);
  }

  /** The product of the last seven decisions' option counts. */
  lemma ConfigGridSizeTail()
    ensures GridSizeFrom(ConfigDimensions, 6) == 4088
  {
    var t := ConfigDimensions;
    ConfigGridSizeSubgroups();
    assert GridSizeFrom(t, 9) == 1022;
    assert GridSizeFrom(t, 8) == 1022;
    assert GridSizeFrom(t, 7) == 1022;
  }

  /** The product of the last four decisions' option counts. */
  lemma ConfigGridSizeSubgroups()
    ensures GridSizeFrom(ConfigDimensions, 10) == 511
  {
    var t := ConfigDimensions;
    ExcludeSubgroupsCount();
    assert GridSizeFrom(t, 12) == 1;
    assert GridSizeFrom(t, 11) == 1;
  }

  /** The grid spans 1·1·1·1·1·4·4·1·1·2·511·1·1 = 16352 universes. */
  lemma ConfigGridSize()
    ensures GridSize(ConfigDimensions) == 16352
  {
    var t := ConfigDimensions;
    ConfigGridSizeTail();
    assert GridSizeFrom(t, 5) == 16352;
    assert GridSizeFrom(t, 4) == 16352;
    assert GridSizeFrom(t, 3) == 16352;
    assert GridSizeFrom(t, 2) == 16352;
    assert GridSizeFrom(t, 1) == 16352;
    assert GridSizeFrom(t, 0) == 16352;
  }
}
