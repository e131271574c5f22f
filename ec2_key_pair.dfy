/**
 * The EC2 key pair controller: a single describe filtered on name and create
 * time that emits key pair ids, and a delete loop that attempts every id and
 * aggregates every failure into one multi-error.
 *
 * The EC2 client is replaced by oracles: the result of DescribeKeyPairs, and
 * `del(id)` for the error of DeleteKeyPair on one id.
 */
module Ec2KeyPairs {
  import opened Common
  import opened Selection

  /** The fields of a described key pair that the controller reads. */
  datatype KeyPairInfo = KeyPairInfo(keyName: Option<string>, createTime: Option<Time>, keyPairId: string)

  /** A key pair is filtered on its name and its create time. */
  function KeyPairValue(kp: KeyPairInfo): ResourceValue
  {
    ResourceValue(kp.keyName, kp.createTime)
  }

  function Included(shouldInclude: ResourceValue -> bool): KeyPairInfo -> bool
  {
    kp => shouldInclude(KeyPairValue(kp))
  }

  function IdOf(kp: KeyPairInfo): string
  {
    kp.keyPairId
  }

  /**
   * The ids (not the names) of the described key pairs whose name and create
   * time pass `shouldInclude`, in listing order; a failed describe returns its
   * error and nothing else.
   */
  method GetAll(described: Result<seq<KeyPairInfo>>, shouldInclude: ResourceValue -> bool)
    returns (r: Result<seq<string>>)
    ensures described.Failure? ==> r == Failure(described.error)
    ensures described.Success? ==> r == Success(Select(described.value, Included(shouldInclude), IdOf))
  {
    if described.Failure? {
      return Failure(described.error);
    }
    var pairs := described.value;
    var ids: seq<string> := [];
    var i := 0;
    while i < |pairs|
      invariant 0 <= i <= |pairs|
      invariant ids == Select(pairs[..i], Included(shouldInclude), IdOf)
    {
      if shouldInclude(KeyPairValue(pairs[i])) {
        ids := ids + [pairs[i].keyPairId];
      }
      assert pairs[..i + 1][..i] == pairs[..i];
      i := i + 1;
    }
    assert pairs[..i] == pairs;
    return Success(ids);
  }

  /**
   * Over the whole listing, the ids reported are exactly the `KeyPairId`s of
   * the key pairs that pass the filter: an accepted pair is reported by its
   * id, and nothing is reported that is not the id of an accepted pair.
   */
  lemma EmitsIdNotName(pairs: seq<KeyPairInfo>, shouldInclude: ResourceValue -> bool)
    ensures forall i :: 0 <= i < |pairs| && shouldInclude(KeyPairValue(pairs[i])) ==>
      pairs[i].keyPairId in Select(pairs, Included(shouldInclude), IdOf)
    ensures forall id :: id in Select(pairs, Included(shouldInclude), IdOf) ==>
      exists i :: 0 <= i < |pairs| && shouldInclude(KeyPairValue(pairs[i])) && pairs[i].keyPairId == id
  {
    forall i | 0 <= i < |pairs| && shouldInclude(KeyPairValue(pairs[i]))
      ensures pairs[i].keyPairId in Select(pairs, Included(shouldInclude), IdOf)
    {
      SelectMembers(pairs, Included(shouldInclude), IdOf, pairs[i].keyPairId);
    }
    forall id | id in Select(pairs, Included(shouldInclude), IdOf)
      ensures exists i :: 0 <= i < |pairs| && shouldInclude(KeyPairValue(pairs[i])) && pairs[i].keyPairId == id
    {
      SelectMembers(pairs, Included(shouldInclude), IdOf, id);
    }
  }

  /** Deletes one key pair: nil exactly when the client's delete reported no error, else that error. */
  method DeleteKeyPair(keyPairId: string, del: string -> Option<Error>) returns (err: Option<Error>)
    ensures err.None? <==> del(keyPairId).None?
    ensures err.Some? ==> err == del(keyPairId)
  {
    err := del(keyPairId);
  }

  /** The errors of the failed deletes, in the order of the ids. */
  function FailedErrors(ids: seq<string>, del: string -> Option<Error>): (errs: seq<Error>)
    decreases |ids|
  {
    if |ids| == 0 then []
    else
      var n := |ids| - 1;
      FailedErrors(ids[..n], del) + (match del(ids[n]) case Some(e) => [e] case None => [])
  }

  /** What `multierror.Error.ErrorOrNil` gives for an aggregate built by appending `errs` to nil. */
  function ErrorOrNil(errs: seq<Error>): Option<Error>
  {
    if errs == [] then None else Some(MultiError(errs))
  }

  /** The aggregate holds one error per failed id, the error that id's delete returned, in input order. */
  lemma {:induction false} FailedErrorsAtFailures(ids: seq<string>, del: string -> Option<Error>)
    ensures |FailedErrors(ids, del)| == |MatchIndices(ids, Fails(del))|
    ensures forall k :: 0 <= k < |FailedErrors(ids, del)| ==>
      del(ids[MatchIndices(ids, Fails(del))[k]]) == Some(FailedErrors(ids, del)[k])
    decreases |ids|
  {
    if |ids| > 0 {
      var n := |ids| - 1;
      FailedErrorsAtFailures(ids[..n], del);
    }
  }

  /** No error is aggregated exactly when every delete succeeded. */
  lemma FailedErrorsEmptyIff(ids: seq<string>, del: string -> Option<Error>)
    ensures FailedErrors(ids, del) == [] <==> forall i :: 0 <= i < |ids| ==> del(ids[i]).None?
  {
    FailedErrorsAtFailures(ids, del);
    var ix := MatchIndices(ids, Fails(del));
    if i :| 0 <= i < |ids| && del(ids[i]).Some? {
      assert Fails(del)(ids[i]);
      assert i in ix;
    }
  }

  /** Every id is counted exactly once: as deleted or as an aggregated error. */
  lemma {:induction false} DeletedPlusFailedIsAll(ids: seq<string>, del: string -> Option<Error>)
    ensures |MatchIndices(ids, Succeeds(del))| + |FailedErrors(ids, del)| == |ids|
    decreases |ids|
  {
    if |ids| > 0 {
      var n := |ids| - 1;
      DeletedPlusFailedIsAll(ids[..n], del);
    }
  }

  /**
   * Attempts every id, in input order, whatever happened to the earlier ones;
   * returns nil when every delete succeeded, else the aggregate of every
   * failure. `attempted` lists the ids the client was asked to delete and
   * `deleted` is the success counter the source logs.
   */
  method NukeAll(keyPairIds: seq<string>, del: string -> Option<Error>)
    returns (err: Option<Error>, ghost attempted: seq<string>, ghost deleted: nat)
    ensures attempted == keyPairIds
    ensures deleted == |MatchIndices(keyPairIds, Succeeds(del))|
    ensures err == ErrorOrNil(FailedErrors(keyPairIds, del))
  {
    if |keyPairIds| == 0 {
      return None, [], 0;
    }
    attempted, deleted := [], 0;
    var multiErr: seq<Error> := [];
    var i := 0;
    while i < |keyPairIds|
      invariant 0 <= i <= |keyPairIds|
      invariant attempted == keyPairIds[..i]
      invariant deleted == |MatchIndices(keyPairIds[..i], Succeeds(del))|
      invariant multiErr == FailedErrors(keyPairIds[..i], del)
    {
      var keyPair := keyPairIds[i];
      var e := DeleteKeyPair(keyPair, del);
      attempted := attempted + [keyPair];
      if e.Some? {
        multiErr := multiErr + [e.value];
      } else {
        deleted := deleted + 1;
      }
      assert keyPairIds[..i + 1][..i] == keyPairIds[..i];
      i := i + 1;
    }
    assert keyPairIds[..i] == keyPairIds;
    return ErrorOrNil(multiErr), attempted, deleted;
  }

  /** The delete loop returns nil iff every delete succeeded. */
  lemma NukeAllNilIff(keyPairIds: seq<string>, del: string -> Option<Error>)
    ensures ErrorOrNil(FailedErrors(keyPairIds, del)).None? <==>
      forall i :: 0 <= i < |keyPairIds| ==> del(keyPairIds[i]).None?
  {
    FailedErrorsEmptyIff(keyPairIds, del);
  }
}
