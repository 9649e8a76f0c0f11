/**
 * interactive-analysis/src/helpers.js: reading one node of the decision tree
 * shown by the interactive analysis. A node string is `KEY:VALUE`, where KEY
 * may be an abbreviated decision name and VALUE carries a sort prefix that
 * is dropped before display.
 */
module Helpers {
  import opened Wrappers
  import opened Strings

  /** `mapDecisionNames`: abbreviation to full decision name. */
  const MapDecisionNames: map<string, string> := map[
    "ES" := "Exclude Subgroups",
    "EF" := "Exclude Features",
    "M" := "Model",
    "PI" := "Preprocess Income",
    "EFD" := "Eval Fairness Definition",
    "EFG" := "Eval Fairness Grouping",
    "EOS" := "Eval On Subset",
    "EES" := "Eval Exclude Subgroups"]

  /** The returned object: `{ key }` has no value, `{ key, value }` has one. */
  datatype Decision = Decision(key: string, value: Option<string>)

  /** `value.startsWith` on an undefined value throws a TypeError. */
  datatype ParseError = UndefinedValue

  predicate HasNAPrefix(value: string)
  {
    |value| >= 2 && value[0] == 'N' && value[1] == 'A'
  }

  /**
   * Drops the sort prefix: the first two characters after `NA`, otherwise
   * the first character (`"".slice(1)` is `""`). What is left is a suffix.
   */
  function StripSortPrefix(value: string): (r: string)
    ensures |r| <= |value| && r == value[|value| - |r|..]
    ensures HasNAPrefix(value) ==> |r| == |value| - 2
    ensures !HasNAPrefix(value) && |value| > 0 ==> |r| == |value| - 1
  {
    if HasNAPrefix(value) then value[2..]
    else if |value| == 0 then ""
    else value[1..]
  }

  /** How one character of the stripped value is displayed. */
  function RewriteChar(c: char): string
  {
    if c == '-' then "; " else if c == '_' then "-" else [c]
  }

  /** The displayed value, character by character, in one pass. */
  function Rewrite(s: string): string
  {
    if |s| == 0 then "" else RewriteChar(s[0]) + Rewrite(s[1..])
  }

  /** The decision name a key stands for; unknown keys stand for themselves. */
  function FullName(key: string): string
  {
    if key in MapDecisionNames then MapDecisionNames[key] else key
  }

  /** `parseIndividualDecisionString(nodeString)`. */
  function ParseIndividualDecisionString(nodeString: string): (r: Result<Decision, ParseError>)
    ensures r.Err? ==> ':' !in nodeString
    ensures r.Ok? ==> (r.value.value.None? <==> r.value.key == "START")
    ensures r.Ok? && r.value.value.Some? ==> '_' !in r.value.value.value
  {
    var parts := Split(nodeString, ':');
    var key := parts[0];
    if key == "START" then Ok(Decision(key, None))
    else if |parts| < 2 then Err(UndefinedValue)
    else
      var value := StripSortPrefix(parts[1]);
      Ok(Decision(FullName(key), Some(ReplaceAll(ReplaceAll(value, '-', "; "), '_', "-"))))
  }

  // ---------------------------------------------------------------- lemmas

  /** The full names are never `START`, so only a START node lacks a value. */
  lemma FullNameNotStart(key: string)
    requires key != "START"
    ensures FullName(key) != "START"
  {
  }

  /**
   * No full name is itself an abbreviation, so mapping a key a second time
   * changes nothing.
   */
  lemma FullNameIdempotent(key: string)
    ensures FullName(FullName(key)) == FullName(key)
  {
  }

  lemma {:induction false} RewriteAppend(a: string, b: string)
    ensures Rewrite(a + b) == Rewrite(a) + Rewrite(b)
  {
    if |a| == 0 {
      assert a + b == b;
    } else {
      assert (a + b)[1..] == a[1..] + b;
      RewriteAppend(a[1..], b);
    }
  }

  /**
   * Replacing every `-` by `; ` and then every `_` by `-` is the one-pass
   * rewrite: the second pass never touches a hyphen the first one produced.
   */
  lemma {:induction false} ReplaceTwice(s: string)
    ensures ReplaceAll(ReplaceAll(s, '-', "; "), '_', "-") == Rewrite(s)
  {
    if |s| > 0 {
      var head := if s[0] == '-' then "; " else [s[0]];
      ReplaceTwice(s[1..]);
      ReplaceAllAppend(head, ReplaceAll(s[1..], '-', "; "), '_', "-");
      assert ReplaceAll(head, '_', "-") == RewriteChar(s[0]) by {
        if s[0] == '-' {
          assert head[1..][1..] == [];
        } else {
          assert head[1..] == [];
        }
      }
    }
  }

  /**
   * The displayed value holds no `_`; it is one character longer per `-` of
   * the stripped value, and it holds one `-` per `_` of the stripped value.
   */
  lemma {:induction false} RewriteShape(s: string)
    ensures '_' !in Rewrite(s)
    ensures |Rewrite(s)| == |s| + Count(s, '-')
    ensures Count(Rewrite(s), '-') == Count(s, '_')
  {
    if |s| > 0 {
      RewriteShape(s[1..]);
      CountAppend(RewriteChar(s[0]), Rewrite(s[1..]), '-');
      var head := RewriteChar(s[0]);
      if s[0] == '-' {
        assert head[1..][1..] == [];
      } else {
        assert head[1..] == [];
      }
    }
  }

  /** Characters other than `-` and `_` are displayed unchanged and in order. */
  lemma {:induction false} RewriteKeepsPlainText(s: string)
    requires '-' !in s && '_' !in s
    ensures Rewrite(s) == s
  {
    if |s| > 0 {
      RewriteKeepsPlainText(s[1..]);
      assert s == [s[0]] + s[1..];
    }
  }

  /**
   * A node whose text before the first `:` is `START` (the whole node, or a
   * `START:` prefix) is the start node, without value.
   */
  lemma StartNode(nodeString: string)
    requires nodeString == "START" || (|nodeString| >= 6 && nodeString[..6] == "START:")
    ensures ParseIndividualDecisionString(nodeString) == Ok(Decision("START", None))
  {
    if nodeString == "START" {
      SplitWithoutSeparator(nodeString, ':');
    } else {
      assert nodeString == "START" + [':'] + nodeString[6..];
      SplitAtFirstSeparator("START", nodeString[6..], ':');
    }
  }

  /** Only such a node comes back without a value. */
  lemma OnlyStartNodeLacksValue(nodeString: string)
    requires ParseIndividualDecisionString(nodeString).Ok?
    requires ParseIndividualDecisionString(nodeString).value.value.None?
    ensures nodeString == "START" || (|nodeString| >= 6 && nodeString[..6] == "START:")
  {
    var parts := Split(nodeString, ':');
    assert parts[0] == "START";
    if |parts| > 1 {
      assert nodeString == parts[0] + [':'] + Join(parts[1..], ':');
    }
  }

  /**
   * For `KEY:VALUE` with KEY other than START: the key is replaced by its
   * full name when it has one and kept otherwise; the value loses its sort
   * prefix and is then rewritten; anything after a second `:` is ignored.
   */
  lemma ParseKeyValue(key: string, value: string, rest: string)
    requires ':' !in key && ':' !in value && key != "START"
    ensures ParseIndividualDecisionString(key + [':'] + value) ==
      Ok(Decision(FullName(key), Some(Rewrite(StripSortPrefix(value)))))
    ensures ParseIndividualDecisionString(key + [':'] + value + [':'] + rest) ==
      ParseIndividualDecisionString(key + [':'] + value)
  {
    SplitAtFirstSeparator(key, value, ':');
    SplitWithoutSeparator(value, ':');
    assert key + [':'] + value + [':'] + rest == key + [':'] + (value + [':'] + rest);
    SplitAtFirstSeparator(key, value + [':'] + rest, ':');
    SplitAtFirstSeparator(value, rest, ':');
    ReplaceTwice(StripSortPrefix(value));
  }

  /** A node without `:` fails exactly when it is not the start node. */
  lemma MissingValue(nodeString: string)
    requires ':' !in nodeString
    ensures ParseIndividualDecisionString(nodeString).Err? <==> nodeString != "START"
  {
    SplitWithoutSeparator(nodeString, ':');
  }
}
