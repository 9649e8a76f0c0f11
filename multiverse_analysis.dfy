/**
 * multiverse_analysis.py: the script that re-declares the decision table,
 * turns `--mode` into the `new_run` flag and runs one of three plans on the
 * analysis object. The analysis object's operations (`generate_grid`,
 * `visit_universe`, `examine_multiverse`, `check_missing_universes`,
 * `aggregate_data`) are steps of the plan; what they do is not modelled.
 */
module MultiverseAnalysis {
  import opened Wrappers
  import opened Combinatorics
  import opened Dimensions
  import Multiverse

  /** The script's own copy of `calculate_combinations`, loop for loop. */
  method CalculateCombinations<T(==)>(items: seq<T>) returns (allCombinations: seq<seq<T>>)
    ensures allCombinations == AllCombinations(items)
    ensures |allCombinations| == Pow2(|items|) - 1
    ensures Distinct(items) ==> Distinct(allCombinations)
  {
    allCombinations := [];
    var totalItems := |items|;
    for i := 1 to totalItems + 1
      invariant allCombinations == UpTo(items, i - 1)
    {
      allCombinations := allCombinations + Combinations(items, i);
    }
    AllCombinationsCount(items);
    if Distinct(items) {
      AllCombinationsDistinct(items);
    }
  }

  /** The script's copy of the race groups. */
  const GroupsRac1p: seq<string> := [
    "White alone", "Asian alone", "Two or More Races", "Some Other Race alone",
    "Black or African American alone", "American Indian alone",
    "Native Hawaiian and Other " + "Pacific Islander alone",
    "American Indian and Alaska " + "Native tribes specified; or " + "American Indian or Alaska " +
    "Native, not specified and " + "no other races",
    "Alaska Native alone"]

  function CombinationsRac1pJoined(): seq<string>
  {
    Multiverse.JoinedOptions(AllCombinations(GroupsRac1p))
  }

  /** The `dimensions` argument of `MultiverseAnalysis(...)`, in declaration order. */
  const AnalysisDimensions: seq<Dimension> := [
    PreprocessAge, Scale, EncodeCategorical, StratifySplit, Cutoff, ExcludeFeatures,
    PreprocessIncome, EvalExcludeSubgroups, EvalFairnessGrouping, Model, ExcludeSubgroups,
    EvalOnSubset, FairnessDefinition]

  const PreprocessAge := Dimension("preprocess_age", [Atom("none")])
  const Scale := Dimension("scale", [Atom("do-not-scale")])
  const EncodeCategorical := Dimension("encode_categorical", [Atom("one-hot")])
  const StratifySplit := Dimension("stratify_split", [Atom("none")])
  const Cutoff := Dimension("cutoff", [Compound(["raw_0.5"])])
  const ExcludeFeatures := Dimension("exclude_features", [Atom("none"), Atom("race"), Atom("sex"), Atom("race-sex")])
  const PreprocessIncome :=
    Dimension("preprocess_income", [Atom("none"), Atom("bins_10000"), Atom("quantiles_3"), Atom("quantiles_4")])
  const EvalExcludeSubgroups := Dimension("eval_exclude_subgroups", [Compound(["exclude-in-eval", "keep-in-eval"])])
  const EvalFairnessGrouping := Dimension("eval_fairness_grouping", [Compound(["majority-minority", "race-all"])])
  const Model := Dimension("model", [Atom("logreg"), Atom("rf")])
  const ExcludeSubgroups := Dimension("exclude_subgroups", Atoms(CombinationsRac1pJoined()))
  const EvalOnSubset := Dimension("eval_on_subset", [Compound(["full", "locality-largest-only",
    "locality-most-privileged", "locality-city-sf", "exclude-military", "exclude-non-citizens"])])
  const FairnessDefinition := Dimension("fairness_definition", [Compound(["sensitivity", "precision"])])

  /**
   * Both declarations of the decision table agree: same names, same order,
   * same option lists; so universes drawn from either table coincide.
   */
  lemma SameDimensionsAsConfig()
    ensures AnalysisDimensions == Multiverse.ConfigDimensions
    ensures WellFormed(AnalysisDimensions)
    ensures GridSize(AnalysisDimensions) == 16352
  {
    assert GroupsRac1p == Multiverse.GroupsRac1p;
    Multiverse.ConfigWellFormed();
    Multiverse.ConfigGridSize();
  }

  // ---------------------------------------------------------------- run mode

  datatype Mode = Full | Continue | Test

  function ModeName(mode: Mode): string
  {
    match mode
    case Full => "full"
    case Continue => "continue"
    case Test => "test"
  }

  /**
   * `--mode` as argparse reads it: one of the three choices, `full` when the
   * option is absent, an error naming the argument otherwise.
   */
  function ParseMode(arg: Option<string>): (r: Result<Mode, string>)
    ensures arg.None? ==> r == Ok(Full)
    ensures r.Ok? <==> arg.None? || arg.value in {"full", "continue", "test"}
    ensures r.Err? ==> arg == Some(r.error)
  {
    match arg
    case None => Ok(Full)
    case Some(s) =>
      if s == "full" then Ok(Full)
      else if s == "continue" then Ok(Continue)
      else if s == "test" then Ok(Test)
      else Err(s)
  }

  /** `args.mode`: the given value, or the default. */
  function ModeArgument(arg: Option<string>): string
  {
    match arg
    case None => "full"
    case Some(s) => s
  }

  /** A mode's name parses back to that mode, and only its name does. */
  lemma ParseModeName(mode: Mode, s: string)
    ensures ParseMode(Some(ModeName(mode))) == Ok(mode)
    ensures ParseMode(Some(s)) == Ok(mode) ==> s == ModeName(mode)
  {
  }

  /** `new_run=(args.mode != "continue")`. */
  function NewRun(modeArgument: string): bool
  {
    modeArgument != "continue"
  }

  /** For every accepted `--mode`, a new run is started unless the mode is `continue`. */
  lemma NewRunByMode(arg: Option<string>, mode: Mode)
    requires ParseMode(arg) == Ok(mode)
    ensures NewRun(ModeArgument(arg)) <==> mode != Continue
    ensures mode == Full || mode == Test ==> NewRun(ModeArgument(arg))
  {
  }

  // ---------------------------------------------------------------- run plan

  /** The calls the script makes on the analysis object, in order. */
  datatype Step<U> =
    | NewAnalysis(newRun: bool)
    | GenerateGrid
    | VisitUniverse(universe: U)
    | CheckMissingUniverses
    | ExamineMultiverse(universes: seq<U>)
    | AggregateData

  /** `multiverse_grid[i]` with i past the end raises IndexError and ends the script. */
  datatype Outcome = Completed | GridIndexError

  datatype Trace<U> = Trace(steps: seq<Step<U>>, outcome: Outcome)

  /**
   * The script from the construction of the analysis object on. `grid` is
   * what `generate_grid` returns and `missing` what the first
   * `check_missing_universes()["missing_universes"]` returns; both come from
   * the analysis object and are inputs here.
   */
  function RunPlan<U>(mode: Mode, grid: seq<U>, missing: seq<U>): (t: Trace<U>)
    ensures |t.steps| >= 2
    ensures t.steps[0] == NewAnalysis(mode != Continue) && t.steps[1] == GenerateGrid
    ensures t.outcome == Completed <==> !(mode == Test && |grid| < 2)
    ensures t.outcome == Completed ==>
      |t.steps| >= 4 && t.steps[|t.steps| - 2..] == [AggregateData, CheckMissingUniverses]
    ensures mode == Test ==> forall k :: 0 <= k < |t.steps| ==> !t.steps[k].ExamineMultiverse?
  {
    var setup := [NewAnalysis(NewRun(ModeName(mode))), GenerateGrid];
    var finish := [AggregateData, CheckMissingUniverses];
    match mode
    case Test =>
      if |grid| == 0 then Trace(setup, GridIndexError)
      else if |grid| == 1 then Trace(setup + [VisitUniverse(grid[0])], GridIndexError)
      else Trace(setup + [VisitUniverse(grid[0]), VisitUniverse(grid[1])] + finish, Completed)
    case Continue =>
      Trace(setup + [CheckMissingUniverses, ExamineMultiverse(missing)] + finish, Completed)
    case Full =>
      Trace(setup + [ExamineMultiverse(grid)] + finish, Completed)
  }

  function StepUniverses<U>(step: Step<U>): seq<U>
  {
    match step
    case VisitUniverse(u) => [u]
    case ExamineMultiverse(us) => us
    case _ => []
  }

  /** The universes a sequence of steps runs the pipeline on, in order. */
  function Visited<U>(steps: seq<Step<U>>): seq<U>
  {
    if |steps| == 0 then [] else StepUniverses(steps[0]) + Visited(steps[1..])
  }

  lemma {:induction false} VisitedAppend<U>(a: seq<Step<U>>, b: seq<Step<U>>)
    ensures Visited(a + b) == Visited(a) + Visited(b)
  {
    if |a| == 0 {
      assert a + b == b;
    } else {
      assert (a + b)[1..] == a[1..] + b;
      VisitedAppend(a[1..], b);
    }
  }

  /** Steps that run no universe contribute nothing to what is visited. */
  lemma VisitedFrame<U>(newRun: bool, middle: seq<Step<U>>)
    ensures Visited([NewAnalysis(newRun), GenerateGrid] + middle + [AggregateData, CheckMissingUniverses]) ==
      Visited(middle)
    ensures Visited([NewAnalysis(newRun), GenerateGrid] + middle) == Visited(middle)
  {
    var setup: seq<Step<U>> := [NewAnalysis(newRun), GenerateGrid];
    var finish: seq<Step<U>> := [AggregateData, CheckMissingUniverses];
    VisitedPair<U>(NewAnalysis(newRun), GenerateGrid);
    VisitedPair<U>(AggregateData, CheckMissingUniverses);
    VisitedAppend(setup + middle, finish);
    VisitedAppend(setup, middle);
  }

  /**
   * `full` runs the pipeline on the whole grid, `continue` on the missing
   * universes only, and `test` on `grid[0]` and then `grid[1]` (on as much
   * of that as exists before the IndexError).
   */
  lemma RunPlanVisits<U>(mode: Mode, grid: seq<U>, missing: seq<U>)
    ensures Visited(RunPlan(mode, grid, missing).steps) ==
      match mode
      case Full => grid
      case Continue => missing
      case Test => if |grid| < 2 then grid else [grid[0], grid[1]]
  {
    match mode
    case Full =>
      VisitedFrame(true, [ExamineMultiverse(grid)]);
      VisitedOne(ExamineMultiverse(grid));
    case Continue =>
      VisitedFrame(false, [CheckMissingUniverses, ExamineMultiverse(missing)]);
      VisitedPair(CheckMissingUniverses, ExamineMultiverse(missing));
    case Test =>
      TestPlanVisits(grid, missing);
  }

  lemma VisitedOne<U>(step: Step<U>)
    ensures Visited([step]) == StepUniverses(step)
  {
    assert [step][1..] == [];
  }

  lemma VisitedPair<U>(first: Step<U>, second: Step<U>)
    ensures Visited([first, second]) == StepUniverses(first) + StepUniverses(second)
  {
    assert [first, second][1..] == [second];
    VisitedOne(second);
  }

  lemma TestPlanVisits<U>(grid: seq<U>, missing: seq<U>)
    ensures Visited(RunPlan(Test, grid, missing).steps) == if |grid| < 2 then grid else [grid[0], grid[1]]
  {
    if |grid| == 0 {
      VisitedFrame<U>(true, []);
      assert RunPlan(Test, grid, missing).steps == [NewAnalysis(true), GenerateGrid] + [];
    } else if |grid| == 1 {
      VisitedFrame(true, [VisitUniverse(grid[0])]);
      VisitedOne(VisitUniverse(grid[0]));
      assert grid == [grid[0]];
    } else {
      VisitedFrame(true, [VisitUniverse(grid[0]), VisitUniverse(grid[1])]);
      VisitedPair(VisitUniverse(grid[0]), VisitUniverse(grid[1]));
    }
  }
}
