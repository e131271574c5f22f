/**
 * The RDS DB subnet group controller: a paged discover-and-filter on the
 * group name alone, a bounded poll that waits for one group to disappear, and
 * a delete-everything-then-wait policy that records every delete in the report
 * but returns only the first wait failure.
 *
 * The RDS client is replaced by oracles: `Listing` for the paged describe,
 * `del(name)` for the error of DeleteDBSubnetGroup, and `describe(name, i)`
 * for the error of the i-th describe probe of one group (0-based).
 */
module RdsSubnetGroups {
  import opened Common
  import opened Selection

  /** At most this many describe probes are made while waiting on one group. */
  const MaxDeleteWaitAttempts: nat := 90

  /** The AWS error code by which RDS reports that a subnet group no longer exists. */
  const DBSubnetGroupNotFoundFault: string := "DBSubnetGroupNotFoundFault"

  /** The resource type under which deletions are reported. */
  const ReportResourceType: string := "RDS DB Subnet Group"

  predicate IsNotFound(e: Error)
  {
    e.AwsError? && e.code == DBSubnetGroupNotFoundFault
  }

  // ---------------------------------------------------------------------
  // Discover and filter
  // ---------------------------------------------------------------------

  /** A subnet group is filtered on its name only. */
  function NameOnly(name: string): ResourceValue
  {
    ResourceValue(Some(name), None)
  }

  function Included(shouldInclude: ResourceValue -> bool): string -> bool
  {
    name => shouldInclude(NameOnly(name))
  }

  /**
   * The names of all listed groups whose name-only value passes `shouldInclude`, in
   * page-then-item order; a failed listing discards what was collected and
   * returns its error.
   */
  method GetAll(listing: Listing<string>, shouldInclude: ResourceValue -> bool) returns (r: Result<seq<string>>)
    ensures listing.err.Some? ==> r == Failure(listing.err.value)
    ensures listing.err.None? ==> r == Success(Select(Flatten(listing.pages), Included(shouldInclude), Identity))
  {
    var names: seq<string> := [];
    var p := 0;
    while p < |listing.pages|
      invariant 0 <= p <= |listing.pages|
      invariant names == Select(Flatten(listing.pages[..p]), Included(shouldInclude), Identity)
    {
      var page := listing.pages[p];
      ghost var before := Flatten(listing.pages[..p]);
      var j := 0;
      assert before + page[..j] == before;
      while j < |page|
        invariant 0 <= j <= |page|
        invariant names == Select(before + page[..j], Included(shouldInclude), Identity)
      {
        if shouldInclude(NameOnly(page[j])) {
          names := names + [page[j]];
        }
        assert (before + page[..j + 1])[..|before + page[..j + 1]| - 1] == before + page[..j];
        j := j + 1;
      }
      assert page[..j] == page;
      assert listing.pages[..p + 1][..p] == listing.pages[..p];
      p := p + 1;
    }
    assert listing.pages[..p] == listing.pages;
    if listing.err.Some? {
      return Failure(listing.err.value);
    }
    return Success(names);
  }

  // ---------------------------------------------------------------------
  // Bounded completion poll
  // ---------------------------------------------------------------------

  /** How one wait ended: its error (None is success) and how many probes it made. */
  datatype Poll = Poll(err: Option<Error>, probes: nat)

  /**
   * What the probe that ended a wait means: "not found" is success, any other
   * error is returned as it is, and a group still present on the last allowed
   * probe is a timeout for that name.
   */
  function Verdict(name: string, reply: Option<Error>): Option<Error>
  {
    match reply
    case None => Some(RdsDeleteError(name))
    case Some(e) => if IsNotFound(e) then None else Some(e)
  }

  /**
   * The wait from probe `i` on. It stops at the first probe that reports an
   * error, or after the last allowed probe: every earlier probe found the
   * group still present, and the result is the verdict of the last probe.
   */
  function PollFrom(name: string, describe: (string, nat) -> Option<Error>, i: nat): (p: Poll)
    requires i <= MaxDeleteWaitAttempts
    ensures i < MaxDeleteWaitAttempts ==> i < p.probes <= MaxDeleteWaitAttempts
    ensures i == MaxDeleteWaitAttempts ==> p.probes == MaxDeleteWaitAttempts
    ensures forall j :: i <= j < p.probes - 1 ==> describe(name, j).None?
    ensures p.probes < MaxDeleteWaitAttempts ==> describe(name, p.probes - 1).Some?
    ensures i < MaxDeleteWaitAttempts ==> p.err == Verdict(name, describe(name, p.probes - 1))
    decreases MaxDeleteWaitAttempts - i
  {
    if i == MaxDeleteWaitAttempts then Poll(Some(RdsDeleteError(name)), i)
    else
      match describe(name, i)
      case None => PollFrom(name, describe, i + 1)
      case Some(e) => Poll(if IsNotFound(e) then None else Some(e), i + 1)
  }

  /** The whole wait on one group, from the first probe. */
  function AwaitDeletion(name: string, describe: (string, nat) -> Option<Error>): Poll
  {
    PollFrom(name, describe, 0)
  }

  /** Probes one group until it is gone, an unexpected error occurs, or 90 probes found it present. */
  method WaitUntilDeleted(name: string, describe: (string, nat) -> Option<Error>)
    returns (err: Option<Error>, ghost probes: nat)
    ensures err == AwaitDeletion(name, describe).err
    ensures 1 <= probes <= MaxDeleteWaitAttempts
    ensures Poll(err, probes) == AwaitDeletion(name, describe)
  {
    var i: nat := 0;
    while i < MaxDeleteWaitAttempts
      invariant i <= MaxDeleteWaitAttempts
      invariant AwaitDeletion(name, describe) == PollFrom(name, describe, i)
    {
      var reply := describe(name, i);
      if reply.Some? {
        assert PollFrom(name, describe, i) == Poll(Verdict(name, reply), i + 1);
        if IsNotFound(reply.value) {
          return None, i + 1;
        }
        return reply, i + 1;
      }
      assert PollFrom(name, describe, i) == PollFrom(name, describe, i + 1);
      i := i + 1;
    }
    assert PollFrom(name, describe, i) == Poll(Some(RdsDeleteError(name)), MaxDeleteWaitAttempts);
    return Some(RdsDeleteError(name)), MaxDeleteWaitAttempts;
  }

  /**
   * The wait stops at the first probe that reports an error, after exactly
   * that many probes: "not found" means success, any other error is returned.
   */
  lemma AwaitStopsAtFirstError(name: string, describe: (string, nat) -> Option<Error>, k: nat)
    requires k < MaxDeleteWaitAttempts
    requires forall j :: 0 <= j < k ==> describe(name, j).None?
    requires describe(name, k).Some?
    ensures AwaitDeletion(name, describe).probes == k + 1
    ensures IsNotFound(describe(name, k).value) ==> AwaitDeletion(name, describe).err.None?
    ensures !IsNotFound(describe(name, k).value) ==> AwaitDeletion(name, describe).err == describe(name, k)
  {
  }

  /** A group present on all 90 probes ends the wait with a timeout naming that group. */
  lemma AwaitTimesOut(name: string, describe: (string, nat) -> Option<Error>)
    requires forall j :: 0 <= j < MaxDeleteWaitAttempts ==> describe(name, j).None?
    ensures AwaitDeletion(name, describe) == Poll(Some(RdsDeleteError(name)), MaxDeleteWaitAttempts)
  {
  }

  /** A wait succeeds iff some probe reports "not found" and every earlier probe found the group present. */
  lemma AwaitSucceedsIff(name: string, describe: (string, nat) -> Option<Error>)
    ensures AwaitDeletion(name, describe).err.None? <==>
      exists k :: 0 <= k < MaxDeleteWaitAttempts
        && (forall j :: 0 <= j < k ==> describe(name, j).None?)
        && describe(name, k).Some? && IsNotFound(describe(name, k).value)
  {
    var p := AwaitDeletion(name, describe);
    if p.err.None? {
      var k := p.probes - 1;
      assert describe(name, k).Some? && IsNotFound(describe(name, k).value);
    }
    if k :| (0 <= k < MaxDeleteWaitAttempts
        && (forall j :: 0 <= j < k ==> describe(name, j).None?)
        && describe(name, k).Some? && IsNotFound(describe(name, k).value)) {
      AwaitStopsAtFirstError(name, describe, k);
    }
  }

  /** A probe that reports the group present 89 times and then "not found" makes 90 probes and succeeds. */
  lemma GoneOnLastProbe(name: string, describe: (string, nat) -> Option<Error>)
    requires forall j :: 0 <= j < MaxDeleteWaitAttempts - 1 ==> describe(name, j).None?
    requires describe(name, MaxDeleteWaitAttempts - 1) == Some(AwsError(DBSubnetGroupNotFoundFault))
    ensures AwaitDeletion(name, describe) == Poll(None, MaxDeleteWaitAttempts)
  {
    AwaitStopsAtFirstError(name, describe, MaxDeleteWaitAttempts - 1);
  }

  // ---------------------------------------------------------------------
  // Delete all, then wait on the deleted ones
  // ---------------------------------------------------------------------

  /** How the waits after the deletes ended: the first wait error, and how many groups were waited on. */
  datatype WaitRun = WaitRun(err: Option<Error>, waited: nat)

  /** Waits on the groups in order, stopping at the first wait that fails. */
  function AwaitAll(names: seq<string>, describe: (string, nat) -> Option<Error>): (w: WaitRun)
    decreases |names|
  {
    if |names| == 0 then WaitRun(None, 0)
    else
      var first := AwaitDeletion(names[0], describe).err;
      if first.Some? then WaitRun(first, 1)
      else
        var rest := AwaitAll(names[1..], describe);
        WaitRun(rest.err, rest.waited + 1)
  }

  /**
   * The waits skip nothing before the first failure and nothing is waited on
   * after it: either every wait succeeded and the result is nil, or the result
   * is the error of the last group waited on and every earlier wait succeeded.
   */
  lemma {:induction false} AwaitAllFirstFailure(names: seq<string>, describe: (string, nat) -> Option<Error>)
    ensures AwaitAll(names, describe).waited <= |names|
    ensures AwaitAll(names, describe).err.None? ==>
      AwaitAll(names, describe).waited == |names| &&
      forall j :: 0 <= j < |names| ==> AwaitDeletion(names[j], describe).err.None?
    ensures AwaitAll(names, describe).err.Some? ==>
      var w := AwaitAll(names, describe).waited;
      1 <= w && AwaitAll(names, describe).err == AwaitDeletion(names[w - 1], describe).err &&
      forall j :: 0 <= j < w - 1 ==> AwaitDeletion(names[j], describe).err.None?
    decreases |names|
  {
    if |names| > 0 && AwaitDeletion(names[0], describe).err.None? {
      AwaitAllFirstFailure(names[1..], describe);
      var rest := AwaitAll(names[1..], describe);
      forall j | 1 <= j < |names| && j < rest.waited + 1
        ensures names[j] == names[1..][j - 1]
      {
      }
    }
  }

  /**
   * Deletes every group, recording each attempt, then waits on the groups
   * whose delete succeeded, in order, stopping at the first wait failure and
   * returning it. `waited` is how many groups were waited on.
   */
  method NukeAll(
    names: seq<string>,
    del: string -> Option<Error>,
    describe: (string, nat) -> Option<Error>,
    ledger: Ledger
  ) returns (err: Option<Error>, ghost waited: nat)
    modifies ledger
    ensures ledger.entries == old(ledger.entries) + Entries(names, ReportResourceType, del)
    ensures WaitRun(err, waited) == AwaitAll(Select(names, Succeeds(del), Identity), describe)
  {
    if |names| == 0 {
      return None, 0;
    }

    var deletedNames: seq<string> := [];
    var i := 0;
    while i < |names|
      invariant 0 <= i <= |names|
      invariant ledger.entries == old(ledger.entries) + Entries(names[..i], ReportResourceType, del)
      invariant deletedNames == Select(names[..i], Succeeds(del), Identity)
    {
      var name := names[i];
      var e := del(name);
      ledger.Record(Entry(name, ReportResourceType, e));
      if e.None? {
        deletedNames := deletedNames + [name];
      }
      assert names[..i + 1][..i] == names[..i];
      i := i + 1;
    }
    assert names[..i] == names;

    var k := 0;
    while k < |deletedNames|
      invariant 0 <= k <= |deletedNames|
      invariant ledger.entries == old(ledger.entries) + Entries(names, ReportResourceType, del)
      invariant AwaitAll(deletedNames, describe) ==
        var rest := AwaitAll(deletedNames[k..], describe); WaitRun(rest.err, rest.waited + k)
    {
      var w, _ := WaitUntilDeleted(deletedNames[k], describe);
      assert deletedNames[k..][0] == deletedNames[k];
      if w.Some? {
        return w, k + 1;
      }
      assert deletedNames[k..][1..] == deletedNames[k + 1..];
      k := k + 1;
    }
    return None, |deletedNames|;
  }

  /**
   * Delete failures alone never make the result an error: when every group
   * whose delete succeeded is then seen to disappear, the result is nil and
   * every deleted group was waited on.
   */
  lemma DeleteFailuresNeverSurface(
    names: seq<string>,
    del: string -> Option<Error>,
    describe: (string, nat) -> Option<Error>
  )
    requires forall i :: 0 <= i < |names| && del(names[i]).None? ==>
      AwaitDeletion(names[i], describe).err.None?
    ensures AwaitAll(Select(names, Succeeds(del), Identity), describe) ==
      WaitRun(None, |Select(names, Succeeds(del), Identity)|)
  {
    var deleted := Select(names, Succeeds(del), Identity);
    AwaitAllFirstFailure(deleted, describe);
    if AwaitAll(deleted, describe).err.Some? {
      var w := AwaitAll(deleted, describe).waited;
      SelectMembers(names, Succeeds(del), Identity, deleted[w - 1]);
    }
  }

  /**
   * The list of groups to wait on holds exactly the given names whose delete
   * succeeded (their order is stated by `SelectAtMatches`).
   */
  lemma WaitedOnlyDeleted(names: seq<string>, del: string -> Option<Error>, n: string)
    ensures n in Select(names, Succeeds(del), Identity) <==> n in names && del(n).None?
  {
    SelectMembers(names, Succeeds(del), Identity, n);
  }
}
