/**
 * Values shared by the resource controllers: the optional and fallible
 * results of Go calls, the error values the controllers return, the facts a
 * filter is evaluated on, and the run's append-only report ledger.
 */
module Common {

  datatype Option<+T> = None | Some(value: T)

  /** A Go `(value, error)` pair where the value is meaningful only when the error is nil. */
  datatype Result<+T> = Success(value: T) | Failure(error: Error)

  /** Instants, as the filter compares them (finer than any difference the model needs). */
  type Time = int

  /** The errors a controller can see or return. */
  datatype Error =
    | AwsError(code: string)           // an `awserr.Error`, identified by its code
    | OtherError(message: string)      // any error that is not an `awserr.Error`
    | RdsDeleteError(name: string)     // an RDS subnet group still present after the last probe
    | MultiError(errors: seq<Error>)   // a `multierror.Error` aggregate, in append order

  /** The facts `ShouldInclude` is evaluated on (tags are never set by these controllers). */
  datatype ResourceValue = ResourceValue(name: Option<string>, time: Option<Time>)

  /** One line of the run's report: the identifier attempted and the error its delete returned, if any. */
  datatype Entry = Entry(identifier: string, resourceType: string, error: Option<Error>)

  /**
   * A paged listing as the SDK's `...Pages` call delivers it: the pages handed
   * to the callback, in order, and the error that ended the listing, if any.
   */
  datatype Listing<T> = Listing(pages: seq<seq<T>>, err: Option<Error>)

  /** Whether a per-identifier delete reply reports success. */
  function Succeeds(del: string -> Option<Error>): string -> bool
  {
    id => del(id).None?
  }

  /** Whether a per-identifier delete reply reports a failure. */
  function Fails(del: string -> Option<Error>): string -> bool
  {
    id => del(id).Some?
  }

  /** The entries one report line per identifier gives, each carrying that identifier's delete error. */
  function Entries(ids: seq<string>, resourceType: string, del: string -> Option<Error>): (es: seq<Entry>)
    decreases |ids|
  {
    if |ids| == 0 then []
    else
      var n := |ids| - 1;
      Entries(ids[..n], resourceType, del) + [Entry(ids[n], resourceType, del(ids[n]))]
  }

  /** Exactly one entry per identifier, in order, carrying that identifier's own delete error. */
  lemma {:induction false} EntriesShape(ids: seq<string>, resourceType: string, del: string -> Option<Error>)
    ensures |Entries(ids, resourceType, del)| == |ids|
    ensures forall i :: 0 <= i < |ids| ==>
      Entries(ids, resourceType, del)[i] == Entry(ids[i], resourceType, del(ids[i]))
    decreases |ids|
  {
    if |ids| > 0 {
      var n := |ids| - 1;
      EntriesShape(ids[..n], resourceType, del);
    }
  }

  /**
   * The run's report: every attempted deletion is appended, nothing is ever
   * removed or rewritten.
   */
  class Ledger {
    var entries: seq<Entry>

    constructor ()
      ensures entries == []
    {
      entries := [];
    }

    method Record(e: Entry)
      modifies this
      ensures entries == old(entries) + [e]
    {
      entries := entries + [e];
    }
  }
}
