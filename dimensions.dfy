/**
 * The decision space: an ordered table from decision name to its ordered
 * option list. An option written as a nested list in the table is one
 * compound option, a joint value treated as a single choice.
 */
module Dimensions {
  import opened Combinatorics

  datatype OptionValue = Atom(token: string) | Compound(tokens: seq<string>)

  datatype Dimension = Dimension(name: string, options: seq<OptionValue>)

  /** A flat option list: every token is one atomic option. */
  function Atoms(tokens: seq<string>): (r: seq<OptionValue>)
    ensures |r| == |tokens|
    ensures forall k :: 0 <= k < |r| ==> r[k] == Atom(tokens[k])
  {
    seq(|tokens|, k requires 0 <= k < |tokens| => Atom(tokens[k]))
  }

  /** Distinct tokens make distinct atomic options. */
  lemma AtomsDistinct(tokens: seq<string>)
    requires Distinct(tokens)
    ensures Distinct(Atoms(tokens))
  {
  }

  /**
   * Decision names are unique, every decision has at least one option and
   * the options of each decision are pairwise distinct.
   */
  predicate WellFormed(table: seq<Dimension>)
  {
    UniqueNames(table) && ValidOptions(table)
  }

  predicate UniqueNames(table: seq<Dimension>)
  {
    Distinct(Names(table))
  }

  /** The decision names, in table order. */
  function Names(table: seq<Dimension>): (names: seq<string>)
    ensures |names| == |table|
    ensures forall i :: 0 <= i < |table| ==> names[i] == table[i].name
  {
    seq(|table|, i requires 0 <= i < |table| => table[i].name)
  }

  predicate ValidOptions(table: seq<Dimension>)
  {
    forall i :: 0 <= i < |table| ==> OptionsOk(table[i])
  }

  /** A decision offers at least one option and no option twice. */
  predicate OptionsOk(d: Dimension)
  {
    |d.options| > 0 && Distinct(d.options)
  }

  /** Product of the option counts: the number of universes in the grid. */
  function GridSize(table: seq<Dimension>): nat
  {
    GridSizeFrom(table, 0)
  }

  /** Product of the option counts of the decisions from index k on. */
  function GridSizeFrom(table: seq<Dimension>, k: nat): nat
    decreases |table| - k
  {
    if k >= |table| then 1 else |table[k].options| * GridSizeFrom(table, k + 1)
  }
}
