/**
 * Concrete cases stated as lemmas about the model: the DynamoDB tests'
 * listings and deletes, the ECR test's time boundary on the DynamoDB test
 * tables, and an RDS group that never disappears. The filters here are the instances of `ShouldInclude`
 * those tests configure: no rule at all, an exclusion rule on a name pattern
 * (found anywhere in the name), and an exclusion rule on creation strictly
 * after an instant. They are instances only, not the general rule engine.
 */
module Scenarios {
  import opened Common
  import opened Selection
  import DynamoDb
  import RdsSubnetGroups

  /** Whether `pattern` occurs somewhere in `s` (a literal pattern searched for, as a regexp search does). */
  predicate Contains(s: string, pattern: string)
  {
    exists i :: 0 <= i <= |s| && OccursAt(s, pattern, i)
  }

  predicate OccursAt(s: string, pattern: string, i: nat)
  {
    i + |pattern| <= |s| && s[i..i + |pattern|] == pattern
  }

  /** No include and no exclude rule: everything is included. */
  function NoRules(): ResourceValue -> bool
  {
    v => true
  }

  /** An exclude rule with one name pattern. */
  function ExcludeNameMatching(pattern: string): ResourceValue -> bool
  {
    (v: ResourceValue) => !(v.name.Some? && Contains(v.name.value, pattern))
  }

  /** An exclude rule with `timeAfter = t`: excludes what was created strictly after `t`. */
  function ExcludeCreatedAfter(t: Time): ResourceValue -> bool
  {
    (v: ResourceValue) => !(v.time.Some? && v.time.value > t)
  }

  /** The describe answers of the DynamoDB test: table1 created at `now`, table2 one tick later. */
  function TestTables(now: Time): string -> DynamoDb.TableDescription
  {
    table =>
      if table == "table1" then DynamoDb.TableDescription(Some("table1"), Some(now))
      else if table == "table2" then DynamoDb.TableDescription(Some("table2"), Some(now + 1))
      else DynamoDb.TableDescription(None, None)
  }

  /** Two listed items, both kept or both dropped or only the second kept, as the filter decides. */
  lemma SelectPair(a: string, b: string, keep: string -> bool)
    ensures Select([a, b], keep, Identity) ==
      (if keep(a) then [a] else []) + (if keep(b) then [b] else [])
  {
    assert [a, b][..1] == [a];
    assert [a][..0] == [];
    assert Select([a], keep, Identity) == (if keep(a) then [a] else []);
  }

  /** The single page of the DynamoDB listing test, flattened. */
  lemma TestListing()
    ensures Flatten([["table1", "table2"]]) == ["table1", "table2"]
  {
    var pages: seq<seq<string>> := [["table1", "table2"]];
    assert pages[..0] == [];
  }

  /** The pattern "table1" is found in the name table1 and not in the name table2. */
  lemma Table1Pattern()
    ensures Contains("table1", "table1")
    ensures !Contains("table2", "table1")
  {
    assert OccursAt("table1", "table1", 0);
    assert "table2"[0..6][5] == '2';
  }

  /** The DynamoDB listing test without rules: both tables come back, in listing order. */
  lemma DynamoNoRulesKeepsBoth(now: Time)
    ensures Select(Flatten([["table1", "table2"]]), DynamoDb.Included(NoRules(), TestTables(now)), Identity)
      == ["table1", "table2"]
  {
    TestListing();
    SelectAll(["table1", "table2"], DynamoDb.Included(NoRules(), TestTables(now)));
  }

  /** The DynamoDB listing test excluding the name pattern "table1": only table2 is left. */
  lemma DynamoNameExclusionKeepsTable2(now: Time)
    ensures Select(Flatten([["table1", "table2"]]),
                   DynamoDb.Included(ExcludeNameMatching("table1"), TestTables(now)), Identity)
      == ["table2"]
  {
    TestListing();
    Table1Pattern();
    SelectPair("table1", "table2", DynamoDb.Included(ExcludeNameMatching("table1"), TestTables(now)));
  }

  /** The DynamoDB listing test excluding creation after `now - 1`: both tables were created later, so none is left. */
  lemma DynamoTimeAfterExclusionKeepsNone(now: Time)
    ensures Select(Flatten([["table1", "table2"]]),
                   DynamoDb.Included(ExcludeCreatedAfter(now - 1), TestTables(now)), Identity)
      == []
  {
    TestListing();
    SelectNone(["table1", "table2"], DynamoDb.Included(ExcludeCreatedAfter(now - 1), TestTables(now)), Identity);
  }

  /** The DynamoDB delete test: both deletes succeed, both tables are attempted, and the result is nil. */
  lemma DynamoNukeAllScenario()
    ensures DynamoDb.Attempted(["table1", "table2"], t => None) == 2
    ensures DynamoDb.Outcome(["table1", "table2"], t => None) == None
  {
    DynamoDb.NilIffNoAwsError(["table1", "table2"], t => None);
  }

  /**
   * The boundary case of the ECR listing test, applied to the DynamoDB test
   * tables: excluding creation after `now` keeps table1, created at exactly
   * `now`, and drops table2, created one tick later.
   */
  lemma DynamoTimeAfterNowKeepsTable1(now: Time)
    ensures Select(Flatten([["table1", "table2"]]),
                   DynamoDb.Included(ExcludeCreatedAfter(now), TestTables(now)), Identity)
      == ["table1"]
  {
    TestListing();
    SelectPair("table1", "table2", DynamoDb.Included(ExcludeCreatedAfter(now), TestTables(now)));
  }

  /** A group always found present is given up on after exactly 90 probes, with a timeout naming it. */
  lemma AlwaysPresentTimesOut(name: string)
    ensures RdsSubnetGroups.AwaitDeletion(name, (n, i) => None) ==
      RdsSubnetGroups.Poll(Some(RdsDeleteError(name)), RdsSubnetGroups.MaxDeleteWaitAttempts)
  {
    RdsSubnetGroups.AwaitTimesOut(name, (n, i) => None);
  }
}
