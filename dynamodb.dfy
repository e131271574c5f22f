/**
 * The DynamoDB table controller: a paged listing of table names, each table
 * described and filtered on its described name and creation time, and a
 * delete loop that records every attempt and stops at the first AWS-typed
 * delete error while passing silently over any other error.
 *
 * The DynamoDB client is replaced by oracles: `Listing` for ListTablesPages,
 * `describe(table)` for DescribeTable and `del(table)` for the error of
 * DeleteTable.
 */
module DynamoDb {
  import opened Common
  import opened Selection

  /** The resource type under which deletions are reported. */
  const ReportResourceType: string := "DynamoDB Table"

  /** The fields of a DescribeTable answer that the controller reads. */
  datatype TableDescription = TableDescription(tableName: Option<string>, creationDateTime: Option<Time>)

  /** A table is filtered on its described name and creation time. */
  function TableValue(d: TableDescription): ResourceValue
  {
    ResourceValue(d.tableName, d.creationDateTime)
  }

  function Included(shouldInclude: ResourceValue -> bool, describe: string -> TableDescription): string -> bool
  {
    table => shouldInclude(TableValue(describe(table)))
  }

  /**
   * The listed table names, in page-then-item order, whose description passes
   * `shouldInclude`; the listed name is what is returned. A failed listing
   * discards what was collected and returns its error.
   */
  method GetAll(
    listing: Listing<string>,
    describe: string -> TableDescription,
    shouldInclude: ResourceValue -> bool
  ) returns (r: Result<seq<string>>)
    ensures listing.err.Some? ==> r == Failure(listing.err.value)
    ensures listing.err.None? ==>
      r == Success(Select(Flatten(listing.pages), Included(shouldInclude, describe), Identity))
  {
    var tableNames: seq<string> := [];
    var p := 0;
    while p < |listing.pages|
      invariant 0 <= p <= |listing.pages|
      invariant tableNames == Select(Flatten(listing.pages[..p]), Included(shouldInclude, describe), Identity)
    {
      var page := listing.pages[p];
      ghost var before := Flatten(listing.pages[..p]);
      var j := 0;
      assert before + page[..j] == before;
      while j < |page|
        invariant 0 <= j <= |page|
        invariant tableNames == Select(before + page[..j], Included(shouldInclude, describe), Identity)
      {
        var table := page[j];
        var tableDetail := describe(table);
        if shouldInclude(TableValue(tableDetail)) {
          tableNames := tableNames + [table];
        }
        assert (before + page[..j + 1])[..|before + page[..j + 1]| - 1] == before + page[..j];
        j := j + 1;
      }
      assert page[..j] == page;
      assert listing.pages[..p + 1][..p] == listing.pages[..p];
      p := p + 1;
    }
    assert listing.pages[..p] == listing.pages;
    if listing.err.Some? {
      return Failure(listing.err.value);
    }
    return Success(tableNames);
  }

  /** A delete reply that stops the loop: an error that is an `awserr.Error`. */
  predicate IsAwsFailure(reply: Option<Error>)
  {
    reply.Some? && reply.value.AwsError?
  }

  /** The position of the first table whose delete fails with an AWS error, or the length if none does. */
  function StopIndex(tables: seq<string>, del: string -> Option<Error>): (k: nat)
    ensures k <= |tables|
    ensures forall j :: 0 <= j < k ==> !IsAwsFailure(del(tables[j]))
    ensures k < |tables| ==> IsAwsFailure(del(tables[k]))
    decreases |tables|
  {
    if |tables| == 0 then 0
    else if IsAwsFailure(del(tables[0])) then 0
    else 1 + StopIndex(tables[1..], del)
  }

  /** How many tables the loop asks the client to delete. */
  function Attempted(tables: seq<string>, del: string -> Option<Error>): nat
  {
    var k := StopIndex(tables, del);
    if k < |tables| then k + 1 else k
  }

  /** What the loop returns: the first AWS delete error, or nil. */
  function Outcome(tables: seq<string>, del: string -> Option<Error>): Option<Error>
  {
    var k := StopIndex(tables, del);
    if k < |tables| then del(tables[k]) else None
  }

  /**
   * Deletes tables in order, recording each attempt in the ledger before
   * looking at its error; returns at the first AWS error, and carries on past
   * any other error.
   */
  method NukeAll(tables: seq<string>, del: string -> Option<Error>, ledger: Ledger)
    returns (err: Option<Error>)
    modifies ledger
    ensures ledger.entries ==
      old(ledger.entries) + Entries(tables[..Attempted(tables, del)], ReportResourceType, del)
    ensures err == Outcome(tables, del)
  {
    if |tables| == 0 {
      return None;
    }
    var i := 0;
    while i < |tables|
      invariant 0 <= i <= |tables|
      invariant forall j :: 0 <= j < i ==> !IsAwsFailure(del(tables[j]))
      invariant ledger.entries == old(ledger.entries) + Entries(tables[..i], ReportResourceType, del)
    {
      var table := tables[i];
      var e := del(table);
      ledger.Record(Entry(table, ReportResourceType, e));
      assert tables[..i + 1][..i] == tables[..i];
      if e.Some? && e.value.AwsError? {
        return e;
      }
      i := i + 1;
    }
    return None;
  }

  /**
   * The first AWS delete error is returned, every table up to and including it
   * was attempted, and no later table was.
   */
  lemma FirstAwsErrorStops(tables: seq<string>, del: string -> Option<Error>, k: nat)
    requires k < |tables| && IsAwsFailure(del(tables[k]))
    requires forall j :: 0 <= j < k ==> !IsAwsFailure(del(tables[j]))
    ensures Attempted(tables, del) == k + 1
    ensures Outcome(tables, del) == del(tables[k])
  {
  }

  /**
   * The loop returns nil iff no delete failed with an AWS error, and then
   * every table was attempted, including those whose delete failed otherwise.
   */
  lemma NilIffNoAwsError(tables: seq<string>, del: string -> Option<Error>)
    ensures Outcome(tables, del).None? <==> forall j :: 0 <= j < |tables| ==> !IsAwsFailure(del(tables[j]))
    ensures Outcome(tables, del).None? ==> Attempted(tables, del) == |tables|
  {
  }

  /** Each attempted table has exactly one ledger entry, carrying its own delete error. */
  lemma LedgerOnePerAttempt(tables: seq<string>, del: string -> Option<Error>)
    ensures Attempted(tables, del) <= |tables|
    ensures |Entries(tables[..Attempted(tables, del)], ReportResourceType, del)| == Attempted(tables, del)
    ensures forall j :: 0 <= j < Attempted(tables, del) ==>
      Entries(tables[..Attempted(tables, del)], ReportResourceType, del)[j] ==
        Entry(tables[j], ReportResourceType, del(tables[j]))
  {
    EntriesShape(tables[..Attempted(tables, del)], ReportResourceType, del);
  }
}
